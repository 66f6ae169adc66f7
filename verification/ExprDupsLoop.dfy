/**
 The loop of expr_eliminate_dups in package/config/expr.c: why it ends, and what it preserves.
 */
module ExprDupsLoop {
  import opened Expressions
  import opened ExprEquality
  import opened ExprTransform
  import opened ExprJoin
  import opened ExprPaths
  import opened ExprDups

  /** One round of the loop of expr_eliminate_dups. */
  function Round(e: Expr): (r: Outcome)
    ensures Leaves(r.tree) <= Leaves(e)
    ensures e.Bin? ==> SameShape(e.op, e, r.tree)
  {
    if !e.Bin? then Outcome(e, 0) else
    var a := Dups1(e.op, e, [], []);
    var b := Dups2(e.op, a.tree, [], []);
    SameShapeTrans(e.op, e, a.tree, b.tree);
    Outcome(b.tree, a.count + b.count)
  }

  // ---- What a round tells the loop: a counted change leaves a constant, none leaves the tree ----

  /** A call either counted nothing and changed nothing, or left a 'y' or 'n' behind. */
  predicate Honest(t: Expr, r: Outcome) {
    if r.count == 0 then r.tree == t else HasConst(r.tree)
  }

  lemma HonestThen(t: Expr, a: Outcome, b: Outcome)
    requires Honest(t, a) && Honest(a.tree, b)
    ensures Honest(t, Outcome(b.tree, a.count + b.count))
  {
  }

  lemma HonestPut(t: Expr, p: Path, r: Outcome)
    requires ValidPath(t, p) && Honest(At(t, p), r)
    ensures Honest(t, Outcome(Put(t, p, r.tree), r.count))
  {
    PutAt(t, p);
    if r.count > 0 {
      PutConst(t, p, r.tree);
    }
  }

  lemma JoinSlotsHonest(op: Conn, t: Expr, p: Path, q: Path)
    requires IsOperand(op, t, p) && IsOperand(op, t, q) && p != q
    ensures Honest(t, JoinSlots(op, t, p, q))
  {
    var j := Join(op, At(t, p), At(t, q));
    if j.Some? {
      var n := Symbol(Neutral(op));
      var t1 := Put(t, p, n);
      PutOperand(op, t, p, n);
      PutElsewhere(op, t, p, q, n);
      SameShapeAt(op, t, t1, p);
      SameShapeAt(op, t, t1, q);
      JoinNotOp(op, At(t, p), At(t, q));
      PutElsewhere(op, t1, q, p, j.value);
      var t2 := Put(t1, q, j.value);
      PutOperand(op, t1, q, j.value);
      SameShapeAt(op, t1, t2, p);
      PutAt(t2, p);
      PutConst(t2, p, n);
    }
  }

  lemma {:induction false} Dups1Honest(op: Conn, t: Expr, p: Path, q: Path)
    requires OnSpine(op, t, p) && OnSpine(op, t, q)
    ensures Honest(t, Dups1(op, t, p, q))
    decreases Leaves(t), 1 + SpineNodes(op, At(t, p)) + SpineNodes(op, At(t, q))
  {
    SameShapeRefl(op, t);
    if IsOp(op, At(t, p)) {
      SlotStep(op, t, t, p, q, L);
      var a := Dups1(op, t, p + [L], q);
      Dups1Honest(op, t, p + [L], q);
      SlotStep(op, t, a.tree, p, q, R);
      Dups1Honest(op, a.tree, p + [R], q);
      HonestThen(t, a, Dups1(op, a.tree, p + [R], q));
    } else if IsOp(op, At(t, q)) {
      SlotStep(op, t, t, q, p, L);
      var a := Dups1(op, t, p, q + [L]);
      Dups1Honest(op, t, p, q + [L]);
      SlotStep(op, t, a.tree, q, p, R);
      Dups1Honest(op, a.tree, p, q + [R]);
      HonestThen(t, a, Dups1(op, a.tree, p, q + [R]));
    } else if p != q {
      var a := Dups1Inner(op, t, p, q);
      var s := At(t, p);
      if s.Bin? {
        OperandsSmaller(op, t, p, q);
        Dups1Honest(s.op, s, [], []);
        HonestPut(t, p, Dups1(s.op, s, [], []));
      }
      JoinSlotsHonest(op, a.tree, p, q);
      HonestThen(t, a, JoinSlots(op, a.tree, p, q));
    }
  }

  lemma {:induction false} Dups2InnerHonest(op: Conn, t: Expr, p: Path, q: Path)
    requires IsOperand(op, t, p) && OnSpine(op, t, q) && p != q
    ensures Honest(t, Dups2Inner(op, t, p, q))
    decreases Leaves(t), 0
  {
    var s := At(t, p);
    if s.Bin? {
      OperandsSmaller(op, t, p, q);
      var a := Dups2(s.op, s, [], []);
      Dups2Honest(s.op, s, [], []);
      HonestPut(t, p, a);
      PutOperand(op, t, p, a.tree);
      SameShapeAt(op, t, Put(t, p, a.tree), p);
      PutConst(Put(t, p, a.tree), p, Symbol(Absorbing(op)));
    }
  }

  lemma {:induction false} Dups2Honest(op: Conn, t: Expr, p: Path, q: Path)
    requires OnSpine(op, t, p) && OnSpine(op, t, q)
    ensures Honest(t, Dups2(op, t, p, q))
    decreases Leaves(t), 1 + SpineNodes(op, At(t, p)) + SpineNodes(op, At(t, q))
  {
    SameShapeRefl(op, t);
    if IsOp(op, At(t, p)) {
      SlotStep(op, t, t, p, q, L);
      var a := Dups2(op, t, p + [L], q);
      Dups2Honest(op, t, p + [L], q);
      SlotStep(op, t, a.tree, p, q, R);
      Dups2Honest(op, a.tree, p + [R], q);
      HonestThen(t, a, Dups2(op, a.tree, p + [R], q));
    } else if IsOp(op, At(t, q)) {
      SlotStep(op, t, t, q, p, L);
      var a := Dups2(op, t, p, q + [L]);
      Dups2Honest(op, t, p, q + [L]);
      SlotStep(op, t, a.tree, q, p, R);
      var b := Dups2(op, a.tree, p, q + [R]);
      Dups2Honest(op, a.tree, p, q + [R]);
      HonestThen(t, a, b);
      SameShapeTrans(op, t, a.tree, b.tree);
      SameShapeAt(op, t, b.tree, p);
      SameShapeAt(op, t, b.tree, q);
      Dups2InnerHonest(op, b.tree, p, q);
      HonestThen(t, Outcome(b.tree, a.count + b.count), Dups2Inner(op, b.tree, p, q));
    } else if p != q {
      Dups2InnerHonest(op, t, p, q);
    }
  }

  lemma RoundHonest(e: Expr)
    ensures Honest(e, Round(e))
  {
    if e.Bin? {
      var a := Dups1(e.op, e, [], []);
      Dups1Honest(e.op, e, [], []);
      Dups2Honest(e.op, a.tree, [], []);
      HonestThen(e, a, Dups2(e.op, a.tree, [], []));
    }
  }

  /** A round that counted something is followed by a strictly smaller tree. */
  lemma RoundShrinks(e: Expr)
    requires Round(e).count > 0
    ensures Leaves(EliminateYn(Round(e).tree)) < Leaves(e)
  {
    RoundHonest(e);
    EliminateYnShrinks(Round(e).tree);
  }

  /** expr_eliminate_dups */
  function EliminateDups(e: Expr): Expr
    decreases Leaves(e)
  {
    var r := Round(e);
    if r.count == 0 then r.tree
    else
      RoundShrinks(e);
      EliminateDups(EliminateYn(r.tree))
  }

  // ---- Values ----

  /** Writing a value that only differs from the old one by env-wise equality changes nothing. */
  lemma PutSameValue(op: Conn, t: Expr, p: Path, x: Expr, env: Env)
    requires WellTyped(env) && OnSpine(op, t, p) && Eval(x, env) == Eval(At(t, p), env)
    ensures Eval(Put(t, p, x), env) == Eval(t, env)
  {
    SpineFactor(op, t, p, x, env);
    SpineFactor(op, t, p, At(t, p), env);
    PutAt(t, p);
  }

  lemma JoinSlotsValue(op: Conn, t: Expr, p: Path, q: Path, env: Env)
    requires IsOperand(op, t, p) && IsOperand(op, t, q) && p != q && WellTyped(env)
    ensures Eval(JoinSlots(op, t, p, q).tree, env) == Eval(t, env)
  {
    var j := Join(op, At(t, p), At(t, q));
    if j.Some? {
      var n := Symbol(Neutral(op));
      var t1 := Put(t, p, n);
      PutOperand(op, t, p, n);
      PutElsewhere(op, t, p, q, n);
      SameShapeAt(op, t, t1, q);
      JoinValue(op, At(t, p), At(t, q), env);
      var rest := Eval(Put(t1, q, n), env);
      calc {
        Eval(t, env);
        { PutAt(t, p); SpineFactor(op, t, p, At(t, p), env); }
        Apply(op, Eval(At(t, p), env), Eval(t1, env));
        { PutAt(t1, q); SpineFactor(op, t1, q, At(t, q), env); }
        Apply(op, Eval(At(t, p), env), Apply(op, Eval(At(t, q), env), rest));
        { ApplyAssociative(op, Eval(At(t, p), env), Eval(At(t, q), env), rest); }
        Apply(op, Eval(j.value, env), rest);
        { SpineFactor(op, t1, q, j.value, env); }
        Eval(Put(t1, q, j.value), env);
      }
    }
  }

  /** expr_eliminate_dups1 is exact for all three values, although both slots alias. */
  lemma {:induction false} Dups1Value(op: Conn, t: Expr, p: Path, q: Path, env: Env)
    requires OnSpine(op, t, p) && OnSpine(op, t, q) && WellTyped(env)
    ensures Eval(Dups1(op, t, p, q).tree, env) == Eval(t, env)
    decreases Leaves(t), 1 + SpineNodes(op, At(t, p)) + SpineNodes(op, At(t, q))
  {
    SameShapeRefl(op, t);
    if IsOp(op, At(t, p)) {
      SlotStep(op, t, t, p, q, L);
      var a := Dups1(op, t, p + [L], q);
      Dups1Value(op, t, p + [L], q, env);
      SlotStep(op, t, a.tree, p, q, R);
      Dups1Value(op, a.tree, p + [R], q, env);
    } else if IsOp(op, At(t, q)) {
      SlotStep(op, t, t, q, p, L);
      var a := Dups1(op, t, p, q + [L]);
      Dups1Value(op, t, p, q + [L], env);
      SlotStep(op, t, a.tree, q, p, R);
      Dups1Value(op, a.tree, p, q + [R], env);
    } else if p != q {
      var s := At(t, p);
      if s.Bin? {
        OperandsSmaller(op, t, p, q);
        Dups1Value(s.op, s, [], [], env);
        PutSameValue(op, t, p, Dups1(s.op, s, [], []).tree, env);
      }
      JoinSlotsValue(op, Dups1Inner(op, t, p, q).tree, p, q, env);
    }
  }

  /** w is v, except that nothing is said when v is m. */
  predicate Clamps(v: Tri, w: Tri) {
    v != MOD ==> w == v
  }

  lemma PutClamps(op: Conn, t: Expr, p: Path, x: Expr, env: Env)
    requires WellTyped(env) && OnSpine(op, t, p) && Clamps(Eval(At(t, p), env), Eval(x, env))
    ensures Clamps(Eval(t, env), Eval(Put(t, p, x), env))
  {
    SpineFactor(op, t, p, x, env);
    SpineFactor(op, t, p, At(t, p), env);
    PutAt(t, p);
  }

  /** The test of expr_eliminate_dups2 succeeds only if e1 and e2 exclude each other. */
  lemma ContradictsValue(op: Conn, e1: Expr, e2: Expr, env: Env)
    requires WellTyped(env) && Contradicts(op, e1, e2)
    ensures op == AND ==> Eval(e2, env) <= Negate(Eval(e1, env))
    ensures op == OR ==> Eval(e2, env) >= Negate(Eval(e1, env))
  {
    var n := Transform(Not(e1));
    TransformValue(Not(e1), env);
    var x := ExtractEq(op, None, n, e2);
    ExtractEqMoves(op, None, n, e2, env);
    EliminateYnValue(x.fst, env);
    NothingLeft(op, AccValue(op, None, env), AccValue(op, x.acc, env), Eval(x.fst, env), Eval(x.snd, env),
                Eval(n, env), Eval(e2, env));
  }

  /** If nothing is left of v, then v is a part of w. */
  lemma NothingLeft(op: Conn, start: Tri, acc: Tri, left: Tri, right: Tri, v: Tri, w: Tri)
    requires start == left == if op == AND then YES else NO
    requires Apply(op, acc, left) == Apply(op, start, v) && Apply(op, acc, right) == Apply(op, start, w)
    ensures op == AND ==> w <= v
    ensures op == OR ==> w >= v
  {
  }

  lemma SpineBound(op: Conn, t: Expr, p: Path, env: Env)
    requires WellTyped(env) && OnSpine(op, t, p)
    ensures op == AND ==> Eval(t, env) <= Eval(At(t, p), env)
    ensures op == OR ==> Eval(t, env) >= Eval(At(t, p), env)
  {
    PutAt(t, p);
    SpineFactor(op, t, p, At(t, p), env);
  }

  /** Writing the absorbing constant makes the whole spine absorbing. */
  lemma PutAbsorbing(op: Conn, t: Expr, p: Path, env: Env)
    requires WellTyped(env) && OnSpine(op, t, p)
    ensures Eval(Put(t, p, Symbol(Absorbing(op))), env) == if op == AND then NO else YES
  {
    SpineFactor(op, t, p, Symbol(Absorbing(op)), env);
  }

  /** Where the test of expr_eliminate_dups2 succeeds, its replacement keeps the value of the
      spine in exactly those assignments in which that value is not m. */
  lemma ContradictionExactIff(op: Conn, t: Expr, p: Path, q: Path, env: Env)
    requires WellTyped(env) && OnSpine(op, t, p) && OnSpine(op, t, q)
    requires Contradicts(op, At(t, p), At(t, q))
    ensures Eval(Put(t, p, Symbol(Absorbing(op))), env) == Eval(t, env) <==> Eval(t, env) != MOD
  {
    ContradictsValue(op, At(t, p), At(t, q), env);
    SpineBound(op, t, p, env);
    SpineBound(op, t, q, env);
    PutAbsorbing(op, t, p, env);
  }

  lemma {:induction false} Dups2InnerClamps(op: Conn, t: Expr, p: Path, q: Path, env: Env)
    requires IsOperand(op, t, p) && OnSpine(op, t, q) && p != q && WellTyped(env)
    ensures Clamps(Eval(t, env), Eval(Dups2Inner(op, t, p, q).tree, env))
    decreases Leaves(t), 0
  {
    var s := At(t, p);
    if s.Bin? {
      OperandsSmaller(op, t, p, q);
      var a := Dups2(s.op, s, [], []);
      Dups2Clamps(s.op, s, [], [], env);
      PutClamps(op, t, p, a.tree, env);
      var t1 := Put(t, p, a.tree);
      PutOperand(op, t, p, a.tree);
      SameShapeAt(op, t, t1, p);
      SameShapeAt(op, t, t1, q);
      if Contradicts(op, At(t1, p), At(t1, q)) {
        ContradictionExactIff(op, t1, p, q, env);
      }
    }
  }

  /** expr_eliminate_dups2 keeps every value that is not m. */
  lemma {:induction false} Dups2Clamps(op: Conn, t: Expr, p: Path, q: Path, env: Env)
    requires OnSpine(op, t, p) && OnSpine(op, t, q) && WellTyped(env)
    ensures Clamps(Eval(t, env), Eval(Dups2(op, t, p, q).tree, env))
    decreases Leaves(t), 1 + SpineNodes(op, At(t, p)) + SpineNodes(op, At(t, q))
  {
    SameShapeRefl(op, t);
    if IsOp(op, At(t, p)) {
      SlotStep(op, t, t, p, q, L);
      var a := Dups2(op, t, p + [L], q);
      Dups2Clamps(op, t, p + [L], q, env);
      SlotStep(op, t, a.tree, p, q, R);
      Dups2Clamps(op, a.tree, p + [R], q, env);
    } else if IsOp(op, At(t, q)) {
      SlotStep(op, t, t, q, p, L);
      var a := Dups2(op, t, p, q + [L]);
      Dups2Clamps(op, t, p, q + [L], env);
      SlotStep(op, t, a.tree, q, p, R);
      var b := Dups2(op, a.tree, p, q + [R]);
      Dups2Clamps(op, a.tree, p, q + [R], env);
      SameShapeTrans(op, t, a.tree, b.tree);
      SameShapeAt(op, t, b.tree, p);
      SameShapeAt(op, t, b.tree, q);
      Dups2InnerClamps(op, b.tree, p, q, env);
    } else if p != q {
      Dups2InnerClamps(op, t, p, q, env);
    }
  }

  /** expr_eliminate_dups keeps the value of an expression wherever that value is not m. */
  lemma {:induction false} EliminateDupsClamps(e: Expr, env: Env)
    requires WellTyped(env)
    ensures Clamps(Eval(e, env), Eval(EliminateDups(e), env))
    decreases Leaves(e)
  {
    var r := Round(e);
    RoundHonest(e);
    if r.count > 0 {
      Dups1Value(e.op, e, [], [], env);
      Dups2Clamps(e.op, Dups1(e.op, e, [], []).tree, [], [], env);
      EliminateYnValue(r.tree, env);
      RoundShrinks(e);
      EliminateDupsClamps(EliminateYn(r.tree), env);
    }
  }

  // ---- When the loop is exact ----

  /** What expr_eliminate_dups2 counts in the first round. */
  function SecondPassCount(e: Expr): nat {
    if e.Bin? then Dups2(e.op, Dups1(e.op, e, [], []).tree, [], []).count else 0
  }

  /** The contradiction rule is not applied in any round. */
  predicate NeverContradicts(e: Expr)
    decreases Leaves(e)
  {
    && SecondPassCount(e) == 0
    && if Round(e).count == 0 then true else
         RoundShrinks(e);
         NeverContradicts(EliminateYn(Round(e).tree))
  }

  /** Then the loop keeps all three values. */
  lemma {:induction false} EliminateDupsExact(e: Expr)
    requires NeverContradicts(e)
    ensures Equivalent(e, EliminateDups(e))
    decreases Leaves(e)
  {
    var r := Round(e);
    RoundHonest(e);
    if r.count > 0 {
      RoundShrinks(e);
      EliminateDupsExact(EliminateYn(r.tree));
      forall env: Env | WellTyped(env) ensures Eval(e, env) == Eval(EliminateDups(e), env) {
        FirstPassOnly(e, env);
        EliminateYnValue(r.tree, env);
      }
    }
  }

  lemma FirstPassOnly(e: Expr, env: Env)
    requires e.Bin? && SecondPassCount(e) == 0 && WellTyped(env)
    ensures Eval(Round(e).tree, env) == Eval(e, env)
  {
    Dups1Value(e.op, e, [], [], env);
    Dups2Honest(e.op, Dups1(e.op, e, [], []).tree, [], []);
  }

  /** All connectives of e are op. */
  predicate Unmixed(op: Conn, e: Expr) {
    e.Bin? ==> e.op == op && Unmixed(op, e.left) && Unmixed(op, e.right)
  }

  lemma {:induction false} UnmixedSlot(op: Conn, t: Expr, p: Path)
    requires Unmixed(op, t) && OnSpine(op, t, p)
    ensures Unmixed(op, At(t, p)) && (IsOperand(op, t, p) ==> !At(t, p).Bin?)
    ensures forall x: Expr :: Unmixed(op, x) ==> Unmixed(op, Put(t, p, x))
  {
    if p != [] {
      UnmixedSlot(op, Child(t, p[0]), p[1..]);
    }
  }

  lemma JoinSlotsUnmixed(op: Conn, t: Expr, p: Path, q: Path)
    requires IsOperand(op, t, p) && IsOperand(op, t, q) && p != q && Unmixed(op, t)
    ensures Unmixed(op, JoinSlots(op, t, p, q).tree)
  {
    var j := Join(op, At(t, p), At(t, q));
    if j.Some? {
      UnmixedSlot(op, t, p);
      UnmixedSlot(op, t, q);
      JoinLeaves(op, At(t, p), At(t, q));
      var n := Symbol(Neutral(op));
      PutOperand(op, t, p, n);
      SameShapeAt(op, t, Put(t, p, n), q);
      UnmixedSlot(op, Put(t, p, n), q);
    }
  }

  lemma {:induction false} Dups1Unmixed(op: Conn, t: Expr, p: Path, q: Path)
    requires OnSpine(op, t, p) && OnSpine(op, t, q) && Unmixed(op, t)
    ensures Unmixed(op, Dups1(op, t, p, q).tree)
    decreases Leaves(t), 1 + SpineNodes(op, At(t, p)) + SpineNodes(op, At(t, q))
  {
    SameShapeRefl(op, t);
    if IsOp(op, At(t, p)) {
      SlotStep(op, t, t, p, q, L);
      var a := Dups1(op, t, p + [L], q);
      Dups1Unmixed(op, t, p + [L], q);
      SlotStep(op, t, a.tree, p, q, R);
      Dups1Unmixed(op, a.tree, p + [R], q);
    } else if IsOp(op, At(t, q)) {
      SlotStep(op, t, t, q, p, L);
      var a := Dups1(op, t, p, q + [L]);
      Dups1Unmixed(op, t, p, q + [L]);
      SlotStep(op, t, a.tree, q, p, R);
      Dups1Unmixed(op, a.tree, p, q + [R]);
    } else if p != q {
      UnmixedSlot(op, t, p);
      JoinSlotsUnmixed(op, t, p, q);
    }
  }

  lemma {:induction false} Dups2Unmixed(op: Conn, t: Expr, p: Path, q: Path)
    requires OnSpine(op, t, p) && OnSpine(op, t, q) && Unmixed(op, t)
    ensures Dups2(op, t, p, q) == Outcome(t, 0)
    decreases Leaves(t), 1 + SpineNodes(op, At(t, p)) + SpineNodes(op, At(t, q))
  {
    SameShapeRefl(op, t);
    if IsOp(op, At(t, p)) {
      SlotStep(op, t, t, p, q, L);
      Dups2Unmixed(op, t, p + [L], q);
      SlotStep(op, t, t, p, q, R);
      Dups2Unmixed(op, t, p + [R], q);
    } else if IsOp(op, At(t, q)) {
      UnmixedSlot(op, t, p);
      SlotStep(op, t, t, q, p, L);
      Dups2Unmixed(op, t, p, q + [L]);
      SlotStep(op, t, t, q, p, R);
      Dups2Unmixed(op, t, p, q + [R]);
    } else {
      UnmixedSlot(op, t, p);
    }
  }

  lemma {:induction false} EliminateYnUnmixed(op: Conn, e: Expr)
    requires Unmixed(op, e)
    ensures Unmixed(op, EliminateYn(e))
  {
    if e.Bin? {
      EliminateYnUnmixed(op, e.left);
      EliminateYnUnmixed(op, e.right);
    }
  }

  /** Only expressions with both connectives can be contradictory. */
  lemma {:induction false} UnmixedNeverContradicts(op: Conn, e: Expr)
    requires Unmixed(op, e)
    ensures NeverContradicts(e)
    decreases Leaves(e)
  {
    if e.Bin? {
      var a := Dups1(op, e, [], []);
      Dups1Unmixed(op, e, [], []);
      Dups2Unmixed(op, a.tree, [], []);
      if a.count > 0 {
        RoundShrinks(e);
        EliminateYnUnmixed(op, a.tree);
        UnmixedNeverContradicts(op, EliminateYn(a.tree));
      }
    }
  }
}
