/**
 expr_eliminate_dups1 and expr_eliminate_dups2 of package/config/expr.c.

 dups1 and dups2 compare a tree with itself: both slots point into the same tree t, and what a
 call writes through one slot later calls read through the other.  The functions below thread
 the tree through the calls; the slots are paths on the op-spine of t.
 */
module ExprDups {
  import opened Expressions
  import opened ExprEquality
  import opened ExprTransform
  import opened ExprJoin
  import opened ExprPaths

  /** The tree after a call, and how often trans_count was incremented. */
  datatype Outcome = Outcome(tree: Expr, count: nat)

  /** The join at the end of expr_eliminate_dups1: the first operand becomes the neutral
      constant, the second the joined expression. */
  function JoinSlots(op: Conn, t: Expr, p: Path, q: Path): (r: Outcome)
    requires IsOperand(op, t, p) && IsOperand(op, t, q) && p != q
    ensures SameShape(op, t, r.tree) && Leaves(r.tree) <= Leaves(t)
  {
    var j := Join(op, At(t, p), At(t, q));
    if j.None? then
      SameShapeRefl(op, t);
      Outcome(t, 0)
    else
      var n := Symbol(Neutral(op));
      var t1 := Put(t, p, n);
      PutOperand(op, t, p, n);
      PutElsewhere(op, t, p, q, n);
      SameShapeAt(op, t, t1, q);
      JoinNotOp(op, At(t, p), At(t, q));
      PutOperand(op, t1, q, j.value);
      SameShapeTrans(op, t, t1, Put(t1, q, j.value));
      JoinLeaves(op, At(t, p), At(t, q));
      Outcome(Put(t1, q, j.value), 1)
  }

  /** expr_eliminate_dups1(op, &t.p, &t.q) */
  function Dups1(op: Conn, t: Expr, p: Path, q: Path): (r: Outcome)
    requires OnSpine(op, t, p) && OnSpine(op, t, q)
    ensures SameShape(op, t, r.tree) && Leaves(r.tree) <= Leaves(t)
    decreases Leaves(t), 1 + SpineNodes(op, At(t, p)) + SpineNodes(op, At(t, q))
  {
    SameShapeRefl(op, t);
    if IsOp(op, At(t, p)) then
      SlotStep(op, t, t, p, q, L);
      var a := Dups1(op, t, p + [L], q);
      SlotStep(op, t, a.tree, p, q, R);
      var b := Dups1(op, a.tree, p + [R], q);
      SameShapeTrans(op, t, a.tree, b.tree);
      Outcome(b.tree, a.count + b.count)
    else if IsOp(op, At(t, q)) then
      SlotStep(op, t, t, q, p, L);
      var a := Dups1(op, t, p, q + [L]);
      SlotStep(op, t, a.tree, q, p, R);
      var b := Dups1(op, a.tree, p, q + [R]);
      SameShapeTrans(op, t, a.tree, b.tree);
      Outcome(b.tree, a.count + b.count)
    else if p == q then
      Outcome(t, 0)
    else
      var a := Dups1Inner(op, t, p, q);
      var b := JoinSlots(op, a.tree, p, q);
      SameShapeTrans(op, t, a.tree, b.tree);
      Outcome(b.tree, a.count + b.count)
  }

  /** The nested call expr_eliminate_dups1(e1->type, &e1, &e1) for an operand that is a spine of
      the other connective. */
  function Dups1Inner(op: Conn, t: Expr, p: Path, q: Path): (r: Outcome)
    requires IsOperand(op, t, p) && IsOperand(op, t, q) && p != q
    ensures SameShape(op, t, r.tree) && Leaves(r.tree) <= Leaves(t)
    ensures IsOperand(op, r.tree, p) && IsOperand(op, r.tree, q)
    decreases Leaves(t), 0
  {
    SameShapeRefl(op, t);
    var s := At(t, p);
    if s.Bin? then
      OperandsSmaller(op, t, p, q);
      var a := Dups1(s.op, s, [], []);
      PutOperand(op, t, p, a.tree);
      SameShapeAt(op, t, Put(t, p, a.tree), p);
      SameShapeAt(op, t, Put(t, p, a.tree), q);
      Outcome(Put(t, p, a.tree), a.count)
    else
      Outcome(t, 0)
  }

  /** The test of expr_eliminate_dups2: every operand of the negated e1 is also an operand of e2. */
  function Contradicts(op: Conn, e1: Expr, e2: Expr): bool {
    var x := ExtractEq(op, None, Transform(Not(e1)), e2);
    (if x.acc.Some? then EliminateYn(x.fst) else x.fst) == Symbol(Neutral(op))
  }

  /** The switch of expr_eliminate_dups2: first the nested call, then the test, which replaces
      e1 by the absorbing constant. */
  function Dups2Inner(op: Conn, t: Expr, p: Path, q: Path): (r: Outcome)
    requires IsOperand(op, t, p) && OnSpine(op, t, q) && p != q
    ensures SameShape(op, t, r.tree) && Leaves(r.tree) <= Leaves(t)
    decreases Leaves(t), 0
  {
    SameShapeRefl(op, t);
    var s := At(t, p);
    if s.Bin? then
      OperandsSmaller(op, t, p, q);
      var a := Dups2(s.op, s, [], []);
      var t1 := Put(t, p, a.tree);
      PutOperand(op, t, p, a.tree);
      SameShapeAt(op, t, t1, p);
      SameShapeAt(op, t, t1, q);
      if Contradicts(op, At(t1, p), At(t1, q)) then
        PutOperand(op, t1, p, Symbol(Absorbing(op)));
        SameShapeTrans(op, t, t1, Put(t1, p, Symbol(Absorbing(op))));
        Outcome(Put(t1, p, Symbol(Absorbing(op))), a.count + 1)
      else
        Outcome(t1, a.count)
    else
      Outcome(t, 0)
  }

  /** expr_eliminate_dups2(op, &t.p, &t.q).  After descending through the second slot it goes on
      to compare the first operand with the whole spine below the second slot. */
  function Dups2(op: Conn, t: Expr, p: Path, q: Path): (r: Outcome)
    requires OnSpine(op, t, p) && OnSpine(op, t, q)
    ensures SameShape(op, t, r.tree) && Leaves(r.tree) <= Leaves(t)
    decreases Leaves(t), 1 + SpineNodes(op, At(t, p)) + SpineNodes(op, At(t, q))
  {
    SameShapeRefl(op, t);
    if IsOp(op, At(t, p)) then
      SlotStep(op, t, t, p, q, L);
      var a := Dups2(op, t, p + [L], q);
      SlotStep(op, t, a.tree, p, q, R);
      var b := Dups2(op, a.tree, p + [R], q);
      SameShapeTrans(op, t, a.tree, b.tree);
      Outcome(b.tree, a.count + b.count)
    else if IsOp(op, At(t, q)) then
      SlotStep(op, t, t, q, p, L);
      var a := Dups2(op, t, p, q + [L]);
      SlotStep(op, t, a.tree, q, p, R);
      var b := Dups2(op, a.tree, p, q + [R]);
      SameShapeTrans(op, t, a.tree, b.tree);
      SameShapeAt(op, t, b.tree, p);
      SameShapeAt(op, t, b.tree, q);
      var c := Dups2Inner(op, b.tree, p, q);
      SameShapeTrans(op, t, b.tree, c.tree);
      Outcome(c.tree, a.count + b.count + c.count)
    else if p == q then
      Outcome(t, 0)
    else
      Dups2Inner(op, t, p, q)
  }
}
