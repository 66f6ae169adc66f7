/**
 Slots.  The C code passes `struct expr **` into the middle of a tree; here such a slot is the
 path from the root of the tree to it.  All slots of the engine lie below AND and OR nodes only.
 A path is on the op-spine when every node above its end is an op node.
 */
module ExprPaths {
  import opened Expressions
  import opened ExprEquality

  datatype Dir = L | R
  type Path = seq<Dir>

  function Child(e: Expr, d: Dir): Expr
    requires e.Bin?
  {
    if d == L then e.left else e.right
  }

  function WithChild(e: Expr, d: Dir, x: Expr): Expr
    requires e.Bin?
  {
    if d == L then Bin(e.op, x, e.right) else Bin(e.op, e.left, x)
  }

  predicate ValidPath(e: Expr, p: Path) {
    p == [] || (e.Bin? && ValidPath(Child(e, p[0]), p[1..]))
  }

  /** *ep */
  function At(e: Expr, p: Path): Expr
    requires ValidPath(e, p)
  {
    if p == [] then e else At(Child(e, p[0]), p[1..])
  }

  /** The tree after *ep = x */
  function Put(e: Expr, p: Path, x: Expr): Expr
    requires ValidPath(e, p)
  {
    if p == [] then x else WithChild(e, p[0], Put(Child(e, p[0]), p[1..], x))
  }

  predicate OnSpine(op: Conn, e: Expr, p: Path)
    ensures OnSpine(op, e, p) ==> ValidPath(e, p)
  {
    p == [] || (IsOp(op, e) && OnSpine(op, Child(e, p[0]), p[1..]))
  }

  /** Same op nodes at the top of both trees. */
  predicate SameShape(op: Conn, a: Expr, b: Expr) {
    IsOp(op, a) == IsOp(op, b) &&
    (IsOp(op, a) ==> SameShape(op, a.left, b.left) && SameShape(op, a.right, b.right))
  }

  function SpineNodes(op: Conn, e: Expr): nat {
    if IsOp(op, e) then 1 + SpineNodes(op, e.left) + SpineNodes(op, e.right) else 0
  }

  lemma {:induction false} PathThen(e: Expr, p: Path, q: Path)
    requires ValidPath(e, p) && ValidPath(At(e, p), q)
    ensures ValidPath(e, p + q) && At(e, p + q) == At(At(e, p), q)
    ensures forall x :: Put(e, p + q, x) == Put(e, p, Put(At(e, p), q, x))
  {
    if p == [] {
      assert p + q == q;
    } else {
      assert (p + q)[0] == p[0] && (p + q)[1..] == p[1..] + q;
      PathThen(Child(e, p[0]), p[1..], q);
    }
  }

  lemma {:induction false} SpineStep(op: Conn, e: Expr, p: Path, d: Dir)
    requires OnSpine(op, e, p) && IsOp(op, At(e, p))
    ensures OnSpine(op, e, p + [d]) && At(e, p + [d]) == Child(At(e, p), d)
  {
    if p == [] {
      assert p + [d] == [d] && [d][1..] == [];
      assert OnSpine(op, Child(e, d), []);
    } else {
      assert (p + [d])[0] == p[0] && (p + [d])[1..] == p[1..] + [d];
      SpineStep(op, Child(e, p[0]), p[1..], d);
    }
  }

  lemma {:induction false} SameShapeRefl(op: Conn, a: Expr)
    ensures SameShape(op, a, a)
  {
    if IsOp(op, a) {
      SameShapeRefl(op, a.left);
      SameShapeRefl(op, a.right);
    }
  }

  lemma {:induction false} SameShapeTrans(op: Conn, a: Expr, b: Expr, c: Expr)
    requires SameShape(op, a, b) && SameShape(op, b, c)
    ensures SameShape(op, a, c)
  {
    if IsOp(op, a) {
      SameShapeTrans(op, a.left, b.left, c.left);
      SameShapeTrans(op, a.right, b.right, c.right);
    }
  }

  lemma {:induction false} SameShapeNodes(op: Conn, a: Expr, b: Expr)
    requires SameShape(op, a, b)
    ensures SpineNodes(op, a) == SpineNodes(op, b)
  {
    if IsOp(op, a) {
      SameShapeNodes(op, a.left, b.left);
      SameShapeNodes(op, a.right, b.right);
    }
  }

  lemma {:induction false} SameShapeAt(op: Conn, a: Expr, b: Expr, p: Path)
    requires SameShape(op, a, b) && OnSpine(op, a, p)
    ensures OnSpine(op, b, p) && SameShape(op, At(a, p), At(b, p))
  {
    if p != [] {
      SameShapeAt(op, Child(a, p[0]), Child(b, p[0]), p[1..]);
    }
  }

  /** The slot walk: t' is what earlier calls made of t; both slots are still slots, and one step
      further down from p there are fewer op nodes left. */
  lemma SlotStep(op: Conn, t: Expr, t': Expr, p: Path, q: Path, d: Dir)
    requires SameShape(op, t, t')
    requires OnSpine(op, t, p) && OnSpine(op, t, q) && IsOp(op, At(t, p))
    ensures OnSpine(op, t', p) && IsOp(op, At(t', p)) && OnSpine(op, t', p + [d]) && OnSpine(op, t', q)
    ensures SpineNodes(op, At(t', p + [d])) < SpineNodes(op, At(t, p))
    ensures SpineNodes(op, At(t', q)) == SpineNodes(op, At(t, q))
  {
    SameShapeAt(op, t, t', p);
    SameShapeAt(op, t, t', q);
    SpineStep(op, t', p, d);
    SameShapeNodes(op, At(t, p), At(t', p));
    SameShapeNodes(op, At(t, q), At(t', q));
  }

  /** Slots that end at operands of the op-spine, not at op nodes. */
  predicate IsOperand(op: Conn, e: Expr, p: Path) {
    OnSpine(op, e, p) && !IsOp(op, At(e, p))
  }

  lemma {:induction false} PutOperand(op: Conn, e: Expr, p: Path, x: Expr)
    requires IsOperand(op, e, p) && !IsOp(op, x)
    ensures SameShape(op, e, Put(e, p, x))
    ensures ValidPath(Put(e, p, x), p) && At(Put(e, p, x), p) == x
    ensures Leaves(Put(e, p, x)) == Leaves(e) - Leaves(At(e, p)) + Leaves(x)
  {
    if p != [] {
      PutOperand(op, Child(e, p[0]), p[1..], x);
      SameShapeRefl(op, e.left);
      SameShapeRefl(op, e.right);
    }
  }

  lemma {:induction false} PutElsewhere(op: Conn, e: Expr, p: Path, q: Path, x: Expr)
    requires IsOperand(op, e, p) && IsOperand(op, e, q) && p != q
    ensures ValidPath(Put(e, p, x), q) && At(Put(e, p, x), q) == At(e, q)
  {
    assert p != [] && q != [];
    if p[0] == q[0] {
      assert p[1..] != q[1..] by {
        assert p == [p[0]] + p[1..] && q == [q[0]] + q[1..];
      }
      PutElsewhere(op, Child(e, p[0]), p[1..], q[1..], x);
    }
  }

  lemma {:induction false} OperandSmaller(e: Expr, p: Path)
    requires ValidPath(e, p)
    ensures Leaves(At(e, p)) <= Leaves(e)
    ensures p != [] ==> Leaves(At(e, p)) < Leaves(e)
  {
    if p != [] {
      OperandSmaller(Child(e, p[0]), p[1..]);
    }
  }

  /** Two different operands exist only below an op node; each is smaller than the whole. */
  lemma OperandsSmaller(op: Conn, e: Expr, p: Path, q: Path)
    requires IsOperand(op, e, p) && OnSpine(op, e, q) && p != q
    ensures p != [] && IsOp(op, e)
    ensures Leaves(At(e, p)) < Leaves(e)
    ensures IsOperand(op, e, q) ==> Leaves(At(e, p)) + Leaves(At(e, q)) <= Leaves(e)
  {
    OperandSmaller(e, p);
    if IsOperand(op, e, q) {
      PutOperand(op, e, p, NoExpr);
      PutElsewhere(op, e, p, q, NoExpr);
      SameShapeAt(op, e, Put(e, p, NoExpr), q);
      PutOperand(op, Put(e, p, NoExpr), q, NoExpr);
      OperandPairLeaves(op, e, p, q);
    }
  }

  lemma {:induction false} OperandPairLeaves(op: Conn, e: Expr, p: Path, q: Path)
    requires IsOperand(op, e, p) && IsOperand(op, e, q) && p != q
    ensures Leaves(At(e, p)) + Leaves(At(e, q)) <= Leaves(e)
  {
    assert p != [] && q != [];
    if p[0] == q[0] {
      assert p[1..] != q[1..] by {
        assert p == [p[0]] + p[1..] && q == [q[0]] + q[1..];
      }
      OperandPairLeaves(op, Child(e, p[0]), p[1..], q[1..]);
    } else {
      OperandSmaller(Child(e, p[0]), p[1..]);
      OperandSmaller(Child(e, q[0]), q[1..]);
    }
  }

  /** An operand can be pulled out of its spine. */
  lemma {:induction false} SpineFactor(op: Conn, e: Expr, p: Path, x: Expr, env: Env)
    requires WellTyped(env) && OnSpine(op, e, p)
    ensures Eval(Put(e, p, x), env)
         == Apply(op, Eval(x, env), Eval(Put(e, p, Symbol(Neutral(op))), env))
  {
    if p != [] {
      var c := Child(e, p[0]);
      SpineFactor(op, c, p[1..], x, env);
      ApplyAssociative(op, Eval(x, env), Eval(Put(c, p[1..], Symbol(Neutral(op))), env), Eval(e.right, env));
      ApplyAssociative(op, Eval(x, env), Eval(e.left, env), Eval(Put(c, p[1..], Symbol(Neutral(op))), env));
      ApplyAssociative(op, Eval(e.left, env), Eval(x, env), Eval(Put(c, p[1..], Symbol(Neutral(op))), env));
      ApplyCommutative(op, Eval(e.left, env), Eval(x, env));
    }
  }

  lemma {:induction false} PutAt(e: Expr, p: Path)
    requires ValidPath(e, p)
    ensures Put(e, p, At(e, p)) == e
  {
    if p != [] {
      PutAt(Child(e, p[0]), p[1..]);
    }
  }

  lemma {:induction false} PutPut(e: Expr, p: Path, x: Expr, y: Expr)
    requires ValidPath(e, p)
    ensures ValidPath(Put(e, p, x), p) && At(Put(e, p, x), p) == x
    ensures Put(Put(e, p, x), p, y) == Put(e, p, y)
  {
    if p != [] {
      PutPut(Child(e, p[0]), p[1..], x, y);
    }
  }

  lemma {:induction false} PutConst(e: Expr, p: Path, x: Expr)
    requires ValidPath(e, p) && HasConst(x)
    ensures HasConst(Put(e, p, x))
  {
    if p != [] {
      PutConst(Child(e, p[0]), p[1..], x);
    }
  }
}
