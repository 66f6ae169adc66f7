/**
 expr_transform and expr_trans_bool of package/config/expr.c.  Both consume a tree and return
 the tree that replaces it.
 */
module ExprTransform {
  import opened Expressions

  /** Termination measure: a negation weighs as much as its operand twice over. */
  function Weight(e: Expr): (n: nat)
    ensures n >= 1
  {
    match e
    case Symbol(_) => 1
    case Comp(_, _, _) => 2
    case Not(a) => 2 * Weight(a)
    case Bin(_, a, b) => 1 + Weight(a) + Weight(b)
  }

  lemma PushedWeight(op: Conn, a: Expr, b: Expr)
    ensures Weight(Bin(Dual(op), Not(a), Not(b))) < 2 * Weight(Bin(op, a, b))
  {
    assert Weight(Not(a)) == 2 * Weight(a);
    assert Weight(Not(b)) == 2 * Weight(b);
  }

  /** The E_EQUAL and E_UNEQUAL cases: a boolean symbol compared with 'y', 'm' or 'n'. */
  function TransformComp(equal: bool, a: Sym, b: Sym): (r: Expr)
    ensures Weight(r) <= 2
  {
    if a.Type() != BooleanType then Comp(equal, a, b)
    else if b == SymNo then (if equal then Not(Symbol(a)) else Symbol(a))
    else if b == SymMod then Symbol(if equal then SymNo else SymYes)
    else if b == SymYes then (if equal then Symbol(a) else Not(Symbol(a)))
    else Comp(equal, a, b)
  }

  /** expr_transform */
  function Transform(e: Expr): (r: Expr)
    ensures Weight(r) <= Weight(e)
    decreases Weight(e)
  {
    match e
    case Symbol(_) => e
    case Comp(equal, a, b) => TransformComp(equal, a, b)
    case Bin(op, a, b) => Bin(op, Transform(a), Transform(b))
    case Not(x) =>
      var x' := Transform(x);
      match x'
      case Not(y) => Transform(y)
      case Comp(equal, a, b) => Comp(!equal, a, b)
      case Bin(op, a, b) => PushedWeight(op, a, b); Transform(Bin(Dual(op), Not(a), Not(b)))
      case Symbol(s) =>
        if s == SymYes then NoExpr
        else if s == SymMod then Symbol(SymMod)
        else if s == SymNo then YesExpr
        else Not(x')
  }

  /** Negations stand directly above symbols other than 'y', 'm', 'n', and no boolean symbol is
      compared with 'y', 'm' or 'n'. */
  predicate Normal(e: Expr) {
    match e
    case Symbol(_) => true
    case Comp(_, a, b) => !(a.Type() == BooleanType && b in {SymYes, SymMod, SymNo})
    case Bin(_, a, b) => Normal(a) && Normal(b)
    case Not(x) => x.Symbol? && x.sym !in {SymYes, SymMod, SymNo}
  }

  /** expr_transform keeps the value under every well-typed assignment. */
  lemma {:induction false} TransformValue(e: Expr, env: Env)
    requires WellTyped(env)
    ensures Eval(Transform(e), env) == Eval(e, env)
    decreases Weight(e)
  {
    match e
    case Symbol(_) =>
    case Comp(_, a, b) =>
      assert a.Type() == BooleanType ==> env.str(a) == TriName(env.tri(a));
    case Bin(_, a, b) =>
      TransformValue(a, env);
      TransformValue(b, env);
    case Not(x) =>
      TransformValue(x, env);
      match Transform(x)
      case Not(y) => TransformValue(y, env);
      case Comp(_, _, _) =>
      case Bin(op, a, b) => PushedWeight(op, a, b); TransformValue(Bin(Dual(op), Not(a), Not(b)), env);
      case Symbol(_) =>
  }

  /** Its result is in normal form. */
  lemma {:induction false} TransformNormal(e: Expr)
    ensures Normal(Transform(e))
    decreases Weight(e)
  {
    match e
    case Symbol(_) =>
    case Comp(_, _, _) =>
    case Bin(_, a, b) =>
      TransformNormal(a);
      TransformNormal(b);
    case Not(x) =>
      TransformNormal(x);
      match Transform(x)
      case Not(y) => TransformNormal(y);
      case Comp(_, _, _) =>
      case Bin(op, a, b) => PushedWeight(op, a, b); TransformNormal(Bin(Dual(op), Not(a), Not(b)));
      case Symbol(_) =>
  }

  /** The trees expr_transform leaves alone are exactly those in normal form; with
      TransformNormal this makes it idempotent. */
  lemma {:induction false} TransformFixpoint(e: Expr)
    ensures Transform(e) == e <==> Normal(e)
  {
    if Normal(e) {
      NormalUnchanged(e);
    } else {
      TransformNormal(e);
    }
  }

  lemma {:induction false} NormalUnchanged(e: Expr)
    requires Normal(e)
    ensures Transform(e) == e
  {
    match e
    case Symbol(_) =>
    case Comp(_, _, _) =>
    case Bin(_, a, b) =>
      NormalUnchanged(a);
      NormalUnchanged(b);
    case Not(x) =>
  }

  lemma TransformIdempotent(e: Expr)
    ensures Transform(Transform(e)) == Transform(e)
  {
    TransformNormal(e);
    NormalUnchanged(Transform(e));
  }

  // ---- Typed expressions ----

  /** Bare symbols are tristate, boolean or one of 'y', 'm', 'n'. */
  predicate BareTyped(e: Expr) {
    match e
    case Symbol(s) => IsTristateLike(s) || s in {SymYes, SymMod, SymNo}
    case Not(x) => BareTyped(x)
    case Bin(_, a, b) => BareTyped(a) && BareTyped(b)
    case Comp(_, _, _) => true
  }

  lemma {:induction false} TransformBareTyped(e: Expr)
    requires BareTyped(e)
    ensures BareTyped(Transform(e))
    decreases Weight(e)
  {
    match e
    case Symbol(_) =>
    case Comp(_, _, _) =>
    case Bin(_, a, b) =>
      TransformBareTyped(a);
      TransformBareTyped(b);
    case Not(x) =>
      TransformBareTyped(x);
      match Transform(x)
      case Not(y) => TransformBareTyped(y);
      case Comp(_, _, _) =>
      case Bin(op, a, b) => PushedWeight(op, a, b); TransformBareTyped(Bin(Dual(op), Not(a), Not(b)));
      case Symbol(_) =>
  }

  /** In normal form and, if asked for, with typed bare symbols. */
  predicate Tidy(e: Expr, typed: bool) {
    Normal(e) && (typed ==> BareTyped(e))
  }

  /** expr_trans_bool: FOO != n becomes FOO for a tristate symbol FOO. */
  function TransBool(e: Expr): Expr {
    match e
    case Bin(op, a, b) => Bin(op, TransBool(a), TransBool(b))
    case Not(a) => Not(TransBool(a))
    case Comp(equal, a, b) =>
      if !equal && a.Type() == TristateType && b == SymNo then Symbol(a) else e
    case Symbol(_) => e
  }

  /** How sym_calc_visibility reads the visibility of a symbol that is not tristate: m counts as y. */
  function Promote(t: Tri): Tri {
    if t == MOD then YES else t
  }

  /** On normal forms expr_trans_bool keeps the visibility of a non-tristate symbol. */
  lemma {:induction false} TransBoolVisibility(e: Expr, env: Env)
    requires WellTyped(env) && Normal(e)
    ensures Promote(Eval(TransBool(e), env)) == Promote(Eval(e, env))
  {
    match e
    case Bin(_, a, b) =>
      TransBoolVisibility(a, env);
      TransBoolVisibility(b, env);
    case Comp(_, a, b) =>
      assert a.Type() == TristateType ==> env.str(a) == TriName(env.tri(a));
    case Not(_) =>
    case Symbol(_) =>
  }

  /** Under a negation it does not: !(FOO != n) with FOO = m. */
  lemma TransBoolNegated(id: nat, env: Env)
    requires WellTyped(env)
    ensures var foo := Config(id, TristateType); var e := Not(Comp(false, foo, SymNo));
      Promote(Eval(TransBool(e), env)) == Promote(Eval(e, env)) <==> env.tri(foo) != MOD
  {
    assert env.str(Config(id, TristateType)) == TriName(env.tri(Config(id, TristateType)));
  }
}
