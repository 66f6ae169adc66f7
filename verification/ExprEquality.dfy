/**
 expr_eq, __expr_eliminate_eq, expr_eliminate_eq and expr_extract_eq of package/config/expr.c,
 as functions of the trees in the caller's slots.  The slots of the two arguments always lie in
 different trees.  `ExprSlots` runs the same algorithms in place.
 */
module ExprEquality {
  import opened Expressions

  function Size(e: Expr): (n: nat)
    ensures n >= 1
  {
    match e
    case Bin(_, a, b) => 1 + Size(a) + Size(b)
    case Not(a) => 1 + Size(a)
    case _ => 1
  }

  predicate IsOp(op: Conn, e: Expr) {
    e.Bin? && e.op == op
  }

  lemma {:induction false} EliminateYnSize(e: Expr)
    ensures Size(EliminateYn(e)) <= Size(e)
  {
    if e.Bin? {
      EliminateYnSize(e.left);
      EliminateYnSize(e.right);
    }
  }

  /** New contents of the two slots, and how often trans_count was incremented. */
  datatype Pair = Pair(fst: Expr, snd: Expr, count: nat)

  /** e1->type == e2->type */
  predicate SameType(e1: Expr, e2: Expr) {
    match (e1, e2)
    case (Symbol(_), Symbol(_)) => true
    case (Not(_), Not(_)) => true
    case (Bin(op, _, _), Bin(op', _, _)) => op == op'
    case (Comp(eq, _, _), Comp(eq', _, _)) => eq == eq'
    case _ => false
  }

  /** __expr_eliminate_eq */
  function EliminateEqSpine(op: Conn, e1: Expr, e2: Expr): (r: Pair)
    ensures Size(r.fst) <= Size(e1) && Size(r.snd) <= Size(e2)
    ensures IsOp(op, r.fst) == IsOp(op, e1) && IsOp(op, r.snd) == IsOp(op, e2)
    decreases Size(e1) + Size(e2), if IsOp(op, e1) || IsOp(op, e2) then 0 else 3
  {
    if IsOp(op, e1) then
      var p := EliminateEqSpine(op, e1.left, e2);
      var q := EliminateEqSpine(op, e1.right, p.snd);
      Pair(Bin(op, p.fst, q.fst), q.snd, p.count + q.count)
    else if IsOp(op, e2) then
      var p := EliminateEqSpine(op, e1, e2.left);
      var q := EliminateEqSpine(op, p.fst, e2.right);
      Pair(q.fst, Bin(op, p.snd, q.snd), p.count + q.count)
    else if e1.Symbol? && e2.Symbol? && e1.sym == e2.sym && e1.sym.HasYesOrNoFlag() then
      Pair(e1, e2, 0)
    else if !ExprEq(e1, e2) then
      Pair(e1, e2, 0)
    else
      Pair(Symbol(Neutral(op)), Symbol(Neutral(op)), 1)
  }

  /** expr_eliminate_eq */
  function EliminateEq(e1: Expr, e2: Expr): (r: Pair)
    ensures Size(r.fst) <= Size(e1) && Size(r.snd) <= Size(e2)
    decreases Size(e1) + Size(e2), 1
  {
    var p := if e1.Bin? then EliminateEqSpine(e1.op, e1, e2) else Pair(e1, e2, 0);
    var q := if !SameType(p.fst, p.snd) && p.snd.Bin? then EliminateEqSpine(p.snd.op, p.fst, p.snd)
             else Pair(p.fst, p.snd, 0);
    EliminateYnSize(q.fst); EliminateYnSize(q.snd);
    Pair(EliminateYn(q.fst), EliminateYn(q.snd), p.count + q.count)
  }

  /** expr_eq: conjunctions and disjunctions are equal when eliminating their common
      operands leaves the same symbol on both sides. */
  function ExprEq(e1: Expr, e2: Expr): bool
    decreases Size(e1) + Size(e2), 2
  {
    SameType(e1, e2) &&
    match e1
    case Symbol(s) => s == e2.sym
    case Comp(_, a, b) => a == e2.lhs && b == e2.rhs
    case Not(a) => ExprEq(a, e2.sub)
    case Bin(_, _, _) =>
      var r := EliminateEq(e1, e2);
      r.fst.Symbol? && r.snd.Symbol? && r.fst.sym == r.snd.sym
  }

  /** a and b share the factor c: a = c op a' and b = c op b' in every assignment. */
  ghost predicate Splits(op: Conn, c: Expr, a: Expr, b: Expr, a': Expr, b': Expr) {
    forall env: Env :: WellTyped(env) ==>
      && Eval(a, env) == Apply(op, Eval(c, env), Eval(a', env))
      && Eval(b, env) == Apply(op, Eval(c, env), Eval(b', env))
  }

  lemma ApplyAssociative(op: Conn, a: Tri, b: Tri, c: Tri)
    ensures Apply(op, Apply(op, a, b), c) == Apply(op, a, Apply(op, b, c))
  {
  }

  lemma ApplyCommutative(op: Conn, a: Tri, b: Tri)
    ensures Apply(op, a, b) == Apply(op, b, a)
  {
  }

  /** (c op a) op (d op b) = (c op d) op (a op b) */
  lemma ApplyShuffle(op: Conn, c: Tri, a: Tri, d: Tri, b: Tri)
    ensures Apply(op, Apply(op, c, a), Apply(op, d, b)) == Apply(op, Apply(op, c, d), Apply(op, a, b))
  {
    ApplyAssociative(op, c, a, Apply(op, d, b));
    ApplyAssociative(op, a, d, b);
    ApplyCommutative(op, a, d);
    ApplyAssociative(op, d, a, b);
    ApplyAssociative(op, c, d, Apply(op, a, b));
  }

  /** Two splits in a row: the second one acts on what the first left in slot x. */
  lemma SplitsCompose(op: Conn, c1: Expr, c2: Expr, l: Expr, r: Expr, x: Expr,
                      l': Expr, r': Expr, x': Expr, x'': Expr)
    requires Splits(op, c1, l, x, l', x') && Splits(op, c2, r, x', r', x'')
    ensures Splits(op, Bin(op, c1, c2), Bin(op, l, r), x, Bin(op, l', r'), x'')
  {
    forall env: Env | WellTyped(env)
      ensures Eval(Bin(op, l, r), env) == Apply(op, Eval(Bin(op, c1, c2), env), Eval(Bin(op, l', r'), env))
      ensures Eval(x, env) == Apply(op, Eval(Bin(op, c1, c2), env), Eval(x'', env))
    {
      ApplyShuffle(op, Eval(c1, env), Eval(l', env), Eval(c2, env), Eval(r', env));
      ApplyAssociative(op, Eval(c1, env), Eval(c2, env), Eval(x'', env));
    }
  }

  lemma SplitsSwap(op: Conn, c: Expr, a: Expr, b: Expr, a': Expr, b': Expr)
    requires Splits(op, c, a, b, a', b')
    ensures Splits(op, c, b, a, b', a')
  {
  }

  /** __expr_eliminate_eq splits off a common part. */
  lemma {:induction false} EliminateEqSpineSplits(op: Conn, e1: Expr, e2: Expr) returns (c: Expr)
    ensures var r := EliminateEqSpine(op, e1, e2); Splits(op, c, e1, e2, r.fst, r.snd)
    decreases Size(e1) + Size(e2), if IsOp(op, e1) || IsOp(op, e2) then 0 else 3
  {
    if IsOp(op, e1) {
      var p := EliminateEqSpine(op, e1.left, e2);
      var q := EliminateEqSpine(op, e1.right, p.snd);
      var c1 := EliminateEqSpineSplits(op, e1.left, e2);
      var c2 := EliminateEqSpineSplits(op, e1.right, p.snd);
      SplitsCompose(op, c1, c2, e1.left, e1.right, e2, p.fst, q.fst, p.snd, q.snd);
      c := Bin(op, c1, c2);
    } else if IsOp(op, e2) {
      var p := EliminateEqSpine(op, e1, e2.left);
      var q := EliminateEqSpine(op, p.fst, e2.right);
      var c1 := EliminateEqSpineSplits(op, e1, e2.left);
      var c2 := EliminateEqSpineSplits(op, p.fst, e2.right);
      SplitsSwap(op, c1, e1, e2.left, p.fst, p.snd);
      SplitsSwap(op, c2, p.fst, e2.right, q.fst, q.snd);
      SplitsCompose(op, c1, c2, e2.left, e2.right, e1, p.snd, q.snd, p.fst, q.fst);
      c := Bin(op, c1, c2);
      SplitsSwap(op, c, e2, e1, Bin(op, p.snd, q.snd), q.fst);
    } else if EliminateEqSpine(op, e1, e2).count == 0 {
      c := Symbol(Neutral(op));
    } else {
      ExprEqSound(e1, e2);
      c := e1;
    }
  }

  /** What a pair of expressions tells about each other once their common parts are gone:
      the order of the remainders is the order of the originals. */
  lemma {:induction false} EliminateEqMonotone(e1: Expr, e2: Expr)
    ensures var r := EliminateEq(e1, e2);
      forall env: Env :: WellTyped(env) && Eval(r.fst, env) <= Eval(r.snd, env)
                         ==> Eval(e1, env) <= Eval(e2, env)
    decreases Size(e1) + Size(e2), 1
  {
    var p := if e1.Bin? then EliminateEqSpine(e1.op, e1, e2) else Pair(e1, e2, 0);
    var q := if !SameType(p.fst, p.snd) && p.snd.Bin? then EliminateEqSpine(p.snd.op, p.fst, p.snd)
             else Pair(p.fst, p.snd, 0);
    if e1.Bin? {
      var _ := EliminateEqSpineSplits(e1.op, e1, e2);
    }
    if !SameType(p.fst, p.snd) && p.snd.Bin? {
      var _ := EliminateEqSpineSplits(p.snd.op, p.fst, p.snd);
    }
    forall env: Env | WellTyped(env)
      ensures Eval(EliminateYn(q.fst), env) == Eval(q.fst, env)
      ensures Eval(EliminateYn(q.snd), env) == Eval(q.snd, env)
    {
      EliminateYnValue(q.fst, env);
      EliminateYnValue(q.snd, env);
    }
  }

  /** expr_eq is sound: what it calls equal has the same value in every assignment. */
  lemma {:induction false} ExprEqSound(e1: Expr, e2: Expr)
    requires ExprEq(e1, e2)
    ensures Equivalent(e1, e2)
    decreases Size(e1) + Size(e2), 2
  {
    match e1
    case Symbol(_) =>
    case Comp(_, _, _) =>
    case Not(a) => ExprEqSound(a, e2.sub);
    case Bin(op, _, _) =>
      var p := EliminateEqSpine(op, e1, e2);
      var _ := EliminateEqSpineSplits(op, e1, e2);
      forall env: Env | WellTyped(env)
        ensures Eval(EliminateYn(p.fst), env) == Eval(p.fst, env)
        ensures Eval(EliminateYn(p.snd), env) == Eval(p.snd, env)
      {
        EliminateYnValue(p.fst, env);
        EliminateYnValue(p.snd, env);
      }
  }

  /** expr_extract_eq: the common part is collected in acc. */
  datatype Extract = Extract(acc: Option<Expr>, fst: Expr, snd: Expr)

  function ExtractEq(op: Conn, acc: Option<Expr>, e1: Expr, e2: Expr): (r: Extract)
    ensures Size(r.fst) <= Size(e1) && Size(r.snd) <= Size(e2)
    ensures acc.Some? ==> r.acc.Some?
    decreases Size(e1) + Size(e2)
  {
    if IsOp(op, e1) then
      var p := ExtractEq(op, acc, e1.left, e2);
      var q := ExtractEq(op, p.acc, e1.right, p.snd);
      Extract(q.acc, Bin(op, p.fst, q.fst), q.snd)
    else if IsOp(op, e2) then
      var p := ExtractEq(op, acc, e1, e2.left);
      var q := ExtractEq(op, p.acc, p.fst, e2.right);
      Extract(q.acc, q.fst, Bin(op, p.snd, q.snd))
    else if ExprEq(e1, e2) then
      Extract(Some(if acc.None? then e1 else Bin(op, acc.value, e1)),
              Symbol(Neutral(op)), Symbol(Neutral(op)))
    else
      Extract(acc, e1, e2)
  }

  /** The value of a possibly missing accumulator, as an operand of op. */
  function AccValue(op: Conn, acc: Option<Expr>, env: Env): Tri {
    if acc.None? then (if op == AND then YES else NO) else Eval(acc.value, env)
  }

  /** acc op l = acc1 op l' and acc1 op r = acc2 op r' give acc op (l op r) = acc2 op (l' op r') */
  lemma ApplyMoves(op: Conn, acc: Tri, l: Tri, r: Tri, acc1: Tri, l': Tri, acc2: Tri, r': Tri)
    requires Apply(op, acc1, l') == Apply(op, acc, l)
    requires Apply(op, acc2, r') == Apply(op, acc1, r)
    ensures Apply(op, acc2, Apply(op, l', r')) == Apply(op, acc, Apply(op, l, r))
  {
    calc {
      Apply(op, acc, Apply(op, l, r));
      { ApplyAssociative(op, acc, l, r); ApplyCommutative(op, acc1, l'); }
      Apply(op, Apply(op, l', acc1), r);
      { ApplyAssociative(op, l', acc1, r); }
      Apply(op, l', Apply(op, acc2, r'));
      { ApplyAssociative(op, l', acc2, r'); ApplyCommutative(op, l', acc2); ApplyAssociative(op, acc2, l', r'); }
      Apply(op, acc2, Apply(op, l', r'));
    }
  }

  /** a op c = a' op c' where the accumulator went from a to a' and the slot from c to c'. */
  ghost predicate Moves(op: Conn, acc: Option<Expr>, e: Expr, acc': Option<Expr>, e': Expr, env: Env) {
    Apply(op, AccValue(op, acc', env), Eval(e', env)) == Apply(op, AccValue(op, acc, env), Eval(e, env))
  }

  /** expr_extract_eq moves a common part of both arguments into the accumulator:
      what is in the accumulator afterwards, combined with what is left in either slot,
      has the value that the accumulator and that slot had together before. */
  lemma {:induction false} ExtractEqMoves(op: Conn, acc: Option<Expr>, e1: Expr, e2: Expr, env: Env)
    requires WellTyped(env)
    ensures var r := ExtractEq(op, acc, e1, e2);
      Moves(op, acc, e1, r.acc, r.fst, env) && Moves(op, acc, e2, r.acc, r.snd, env)
    decreases Size(e1) + Size(e2)
  {
    if IsOp(op, e1) {
      var p := ExtractEq(op, acc, e1.left, e2);
      var q := ExtractEq(op, p.acc, e1.right, p.snd);
      ExtractEqMoves(op, acc, e1.left, e2, env);
      ExtractEqMoves(op, p.acc, e1.right, p.snd, env);
      ApplyMoves(op, AccValue(op, acc, env), Eval(e1.left, env), Eval(e1.right, env),
                 AccValue(op, p.acc, env), Eval(p.fst, env), AccValue(op, q.acc, env), Eval(q.fst, env));
    } else if IsOp(op, e2) {
      var p := ExtractEq(op, acc, e1, e2.left);
      var q := ExtractEq(op, p.acc, p.fst, e2.right);
      ExtractEqMoves(op, acc, e1, e2.left, env);
      ExtractEqMoves(op, p.acc, p.fst, e2.right, env);
      ApplyMoves(op, AccValue(op, acc, env), Eval(e2.left, env), Eval(e2.right, env),
                 AccValue(op, p.acc, env), Eval(p.snd, env), AccValue(op, q.acc, env), Eval(q.snd, env));
    } else if ExprEq(e1, e2) {
      ExprEqSound(e1, e2);
    }
  }
}
