/**
 The expression trees of package/config/expr.h and expr.c and what they mean.

 Tristate values are 0 (n), 1 (m) and 2 (y).  A tree is a value of `Expr`: the
 engine never shares nodes between two trees, so a tree is determined by its shape.
 */
module Expressions {

  type Tri = x: int | 0 <= x <= 2
  const NO: Tri := 0
  const MOD: Tri := 1
  const YES: Tri := 2

  /** The two connectives, E_AND and E_OR.  Every rewriter treats them dually. */
  datatype Conn = AND | OR

  function Dual(op: Conn): Conn {
    if op == AND then OR else AND
  }

  function Apply(op: Conn, a: Tri, b: Tri): Tri {
    match op
    case AND => if a < b then a else b
    case OR => if a > b then a else b
  }

  function Negate(a: Tri): Tri {
    2 - a
  }

  datatype SymType = UnknownType | BooleanType | TristateType | IntType | HexType | StringType

  /** A symbol is an identity.  SymYes, SymMod and SymNo are the static symbols 'y', 'm'
      and 'n'; Const is a quoted constant; Config is a symbol of the configuration.
      SYMBOL_YES|SYMBOL_NO is set for 'y', 'n' and for every quoted constant (whose
      flags are SYMBOL_CONST, all three bits). */
  datatype Sym = SymYes | SymMod | SymNo | Const(id: nat) | Config(id: nat, typ: SymType) {
    function Type(): SymType {
      if Config? then typ else UnknownType
    }

    predicate IsConst() {
      !Config?
    }

    predicate HasYesOrNoFlag() {
      SymYes? || SymNo? || Const?
    }
  }

  datatype Expr =
    | Symbol(sym: Sym)
    | Not(sub: Expr)
    | Bin(op: Conn, left: Expr, right: Expr)
    | Comp(equal: bool, lhs: Sym, rhs: Sym)

  const YesExpr := Symbol(SymYes)
  const NoExpr := Symbol(SymNo)

  datatype Option<+T> = None | Some(value: T)

  /** An assignment: for each symbol its tristate value and its string value. */
  datatype Env = Env(tri: Sym -> Tri, str: Sym -> string)

  function TriName(t: Tri): string {
    if t == NO then "n" else if t == MOD then "m" else "y"
  }

  predicate IsTristateLike(s: Sym) {
    s.Type() == BooleanType || s.Type() == TristateType
  }

  /** The typing assumptions: 'y', 'm', 'n' have their own values, a boolean symbol is never m,
      the string value of a boolean or tristate symbol names its tristate value, and distinct
      constants have distinct names. */
  ghost predicate WellTyped(env: Env) {
    && env.tri(SymYes) == YES && env.str(SymYes) == "y"
    && env.tri(SymMod) == MOD && env.str(SymMod) == "m"
    && env.tri(SymNo) == NO && env.str(SymNo) == "n"
    && (forall s: Sym :: s.Type() == BooleanType ==> env.tri(s) != MOD)
    && (forall s: Sym :: IsTristateLike(s) ==> env.str(s) == TriName(env.tri(s)))
    && (forall s: Sym, t: Sym :: s.IsConst() && t.IsConst() && s != t ==> env.str(s) != env.str(t))
  }

  /** expr_calc_value, with the values of the symbols given by env. */
  function Eval(e: Expr, env: Env): Tri {
    match e
    case Symbol(s) => env.tri(s)
    case Not(x) => Negate(Eval(x, env))
    case Bin(op, a, b) => Apply(op, Eval(a, env), Eval(b, env))
    case Comp(eq, a, b) => if (env.str(a) == env.str(b)) == eq then YES else NO
  }

  /** Equal value in every well-typed assignment. */
  ghost predicate Equivalent(a: Expr, b: Expr) {
    forall env: Env :: WellTyped(env) ==> Eval(a, env) == Eval(b, env)
  }

  /** The symbol that is neutral for op ('y' for AND, 'n' for OR), and the one that absorbs. */
  function Neutral(op: Conn): Sym {
    if op == AND then SymYes else SymNo
  }

  function Absorbing(op: Conn): Sym {
    if op == AND then SymNo else SymYes
  }

  /** Number of operands, counting a negation as one. */
  function Leaves(e: Expr): (n: nat)
    ensures n >= 1
  {
    if e.Bin? then Leaves(e.left) + Leaves(e.right) else 1
  }

  /** A constant that expr_eliminate_yn can see: 'y' or 'n' below AND and OR only. */
  predicate HasConst(e: Expr) {
    match e
    case Symbol(s) => s == SymYes || s == SymNo
    case Bin(_, a, b) => HasConst(a) || HasConst(b)
    case _ => false
  }

  /** expr_eliminate_yn */
  function EliminateYn(e: Expr): (r: Expr)
    ensures Leaves(r) <= Leaves(e)
  {
    if !e.Bin? then e else
    var a := EliminateYn(e.left);
    var b := EliminateYn(e.right);
    if a == Symbol(Absorbing(e.op)) then a
    else if a == Symbol(Neutral(e.op)) then b
    else if b == Symbol(Absorbing(e.op)) then b
    else if b == Symbol(Neutral(e.op)) then a
    else Bin(e.op, a, b)
  }

  lemma {:induction false} EliminateYnValue(e: Expr, env: Env)
    requires WellTyped(env)
    ensures Eval(EliminateYn(e), env) == Eval(e, env)
  {
    if e.Bin? {
      EliminateYnValue(e.left, env);
      EliminateYnValue(e.right, env);
    }
  }

  /** After elimination no 'y' or 'n' is left, unless it is the whole expression. */
  lemma {:induction false} EliminateYnClean(e: Expr)
    ensures var r := EliminateYn(e); r == YesExpr || r == NoExpr || !HasConst(r)
  {
    if e.Bin? {
      EliminateYnClean(e.left);
      EliminateYnClean(e.right);
    }
  }

  /** A visible constant makes expr_eliminate_yn shrink the tree. */
  lemma {:induction false} EliminateYnShrinks(e: Expr)
    requires e.Bin? && HasConst(e)
    ensures Leaves(EliminateYn(e)) < Leaves(e)
  {
    var a, b := EliminateYn(e.left), EliminateYn(e.right);
    assert Leaves(e) == Leaves(e.left) + Leaves(e.right);
    if HasConst(e.left) {
      if e.left.Bin? {
        EliminateYnShrinks(e.left);
        assert Leaves(a) < Leaves(e.left);
      } else {
        assert a == e.left;
        assert EliminateYn(e) == a || EliminateYn(e) == b;
      }
    } else {
      if e.right.Bin? {
        EliminateYnShrinks(e.right);
        assert Leaves(b) < Leaves(e.right);
      } else {
        assert b == e.right;
        assert EliminateYn(e) == a || EliminateYn(e) == b;
      }
    }
  }
}
