/**
 Where the loop of expr_eliminate_dups stops: exactly at the trees in which no rule applies to
 any two operands of any AND/OR spine.
 */
module ExprSettled {
  import opened Expressions
  import opened ExprEquality
  import opened ExprJoin
  import opened ExprPaths
  import opened ExprDups
  import opened ExprDupsLoop

  /** No two operands of the top spine can be joined; equal operands can. */
  ghost predicate NoJoins(e: Expr)
    requires e.Bin?
  {
    forall p: Path, q: Path :: IsOperand(e.op, e, p) && IsOperand(e.op, e, q) && p != q
                               ==> Join(e.op, At(e, p), At(e, q)).None?
  }

  /** No operand of the top spine contradicts another part of that spine. */
  ghost predicate NoContradictions(e: Expr)
    requires e.Bin?
  {
    forall p: Path, q: Path :: IsOperand(e.op, e, p) && At(e, p).Bin? && OnSpine(e.op, e, q) && p != q
                               ==> !Contradicts(e.op, At(e, p), At(e, q))
  }

  /** No rule applies in e, at any depth of alternating AND and OR. */
  ghost predicate Settled(e: Expr)
    decreases Leaves(e)
  {
    e.Bin? ==>
      && NoJoins(e)
      && NoContradictions(e)
      && (forall p: Path :: IsOperand(e.op, e, p) && At(e, p).Bin? ==> SettledOperand(e, p))
  }

  ghost predicate SettledOperand(e: Expr, p: Path)
    requires e.Bin? && IsOperand(e.op, e, p) && At(e, p).Bin?
    decreases Leaves(e), 0
  {
    OperandSmaller(e, p);
    Settled(At(e, p))
  }

  /** Below an op node, an operand lies on one of the two sides. */
  lemma OperandSide(op: Conn, t: Expr, p: Path, p': Path)
    requires OnSpine(op, t, p) && p <= p' && OnSpine(op, t, p')
    ensures IsOp(op, At(t, p)) && p != p' ==> p + [L] <= p' || p + [R] <= p'
    ensures !IsOp(op, At(t, p)) ==> p == p'
  {
    if p != p' {
      var d := p'[|p|];
      assert p' == p + [d] + p'[|p| + 1..];
      assert p + p'[|p|..] == p';
      SpineSuffix(op, t, p, p'[|p|..]);
    }
  }

  lemma {:induction false} SpineSuffix(op: Conn, t: Expr, p: Path, s: Path)
    requires OnSpine(op, t, p) && OnSpine(op, t, p + s) && s != []
    ensures IsOp(op, At(t, p))
  {
    if p == [] {
      assert p + s == s;
    } else {
      assert (p + s)[0] == p[0] && (p + s)[1..] == p[1..] + s;
      SpineSuffix(op, Child(t, p[0]), p[1..], s);
    }
  }

  ghost predicate Quiet1(op: Conn, t: Expr, p: Path, q: Path)
    requires IsOperand(op, t, p) && IsOperand(op, t, q)
  {
    Join(op, At(t, p), At(t, q)).None? &&
    (At(t, p).Bin? ==> Dups1(At(t, p).op, At(t, p), [], []).count == 0)
  }

  ghost predicate AllQuiet1(op: Conn, t: Expr, p: Path, q: Path) {
    forall p': Path, q': Path :: IsOperand(op, t, p') && IsOperand(op, t, q') && p <= p' && q <= q' && p' != q'
                                 ==> Quiet1(op, t, p', q')
  }

  lemma AllQuiet1Left(op: Conn, t: Expr, p: Path, q: Path)
    requires OnSpine(op, t, p) && IsOp(op, At(t, p))
    ensures AllQuiet1(op, t, p, q) <==> AllQuiet1(op, t, p + [L], q) && AllQuiet1(op, t, p + [R], q)
  {
    if AllQuiet1(op, t, p + [L], q) && AllQuiet1(op, t, p + [R], q) {
      forall p': Path, q': Path | IsOperand(op, t, p') && IsOperand(op, t, q') && p <= p' && q <= q' && p' != q'
        ensures Quiet1(op, t, p', q')
      {
        OperandSide(op, t, p, p');
      }
    }
  }

  lemma AllQuiet1Right(op: Conn, t: Expr, p: Path, q: Path)
    requires OnSpine(op, t, q) && IsOp(op, At(t, q))
    ensures AllQuiet1(op, t, p, q) <==> AllQuiet1(op, t, p, q + [L]) && AllQuiet1(op, t, p, q + [R])
  {
    if AllQuiet1(op, t, p, q + [L]) && AllQuiet1(op, t, p, q + [R]) {
      forall p': Path, q': Path | IsOperand(op, t, p') && IsOperand(op, t, q') && p <= p' && q <= q' && p' != q'
        ensures Quiet1(op, t, p', q')
      {
        OperandSide(op, t, q, q');
      }
    }
  }

  lemma AllQuiet1Operands(op: Conn, t: Expr, p: Path, q: Path)
    requires IsOperand(op, t, p) && IsOperand(op, t, q)
    ensures AllQuiet1(op, t, p, q) <==> (p != q ==> Quiet1(op, t, p, q))
  {
    forall p': Path | IsOperand(op, t, p') ensures p <= p' ==> p == p' {
      if p <= p' { OperandSide(op, t, p, p'); }
    }
    forall q': Path | IsOperand(op, t, q') ensures q <= q' ==> q == q' {
      if q <= q' { OperandSide(op, t, q, q'); }
    }
  }

  /** dups1 counts nothing exactly if no pair of operands below its slots can be joined. */
  lemma {:induction false} Dups1Quiet(op: Conn, t: Expr, p: Path, q: Path)
    requires OnSpine(op, t, p) && OnSpine(op, t, q)
    ensures Dups1(op, t, p, q).count == 0 <==> AllQuiet1(op, t, p, q)
    decreases Leaves(t), 1 + SpineNodes(op, At(t, p)) + SpineNodes(op, At(t, q))
  {
    SameShapeRefl(op, t);
    if IsOp(op, At(t, p)) {
      SlotStep(op, t, t, p, q, L);
      SlotStep(op, t, t, p, q, R);
      Dups1Honest(op, t, p + [L], q);
      Dups1Quiet(op, t, p + [L], q);
      Dups1Quiet(op, t, p + [R], q);
      AllQuiet1Left(op, t, p, q);
    } else if IsOp(op, At(t, q)) {
      SlotStep(op, t, t, q, p, L);
      SlotStep(op, t, t, q, p, R);
      Dups1Honest(op, t, p, q + [L]);
      Dups1Quiet(op, t, p, q + [L]);
      Dups1Quiet(op, t, p, q + [R]);
      AllQuiet1Right(op, t, p, q);
    } else {
      AllQuiet1Operands(op, t, p, q);
      if p != q {
        OperandsSmaller(op, t, p, q);
        if At(t, p).Bin? {
          Dups1Honest(At(t, p).op, At(t, p), [], []);
          PutAt(t, p);
        }
      }
    }
  }

  ghost predicate Quiet2(op: Conn, t: Expr, p: Path, q: Path)
    requires IsOperand(op, t, p) && OnSpine(op, t, q)
  {
    At(t, p).Bin? ==> Dups2(At(t, p).op, At(t, p), [], []).count == 0 && !Contradicts(op, At(t, p), At(t, q))
  }

  ghost predicate AllQuiet2(op: Conn, t: Expr, p: Path, q: Path) {
    forall p': Path, q': Path :: IsOperand(op, t, p') && OnSpine(op, t, q') && p <= p' && q <= q' && p' != q'
                                 ==> Quiet2(op, t, p', q')
  }

  lemma AllQuiet2Left(op: Conn, t: Expr, p: Path, q: Path)
    requires OnSpine(op, t, p) && IsOp(op, At(t, p))
    ensures AllQuiet2(op, t, p, q) <==> AllQuiet2(op, t, p + [L], q) && AllQuiet2(op, t, p + [R], q)
  {
    if AllQuiet2(op, t, p + [L], q) && AllQuiet2(op, t, p + [R], q) {
      forall p': Path, q': Path | IsOperand(op, t, p') && OnSpine(op, t, q') && p <= p' && q <= q' && p' != q'
        ensures Quiet2(op, t, p', q')
      {
        OperandSide(op, t, p, p');
      }
    }
  }

  lemma AllQuiet2Right(op: Conn, t: Expr, p: Path, q: Path)
    requires IsOperand(op, t, p) && OnSpine(op, t, q) && IsOp(op, At(t, q))
    ensures AllQuiet2(op, t, p, q)
       <==> AllQuiet2(op, t, p, q + [L]) && AllQuiet2(op, t, p, q + [R]) && Quiet2(op, t, p, q)
  {
    forall p': Path | IsOperand(op, t, p') ensures p <= p' ==> p == p' {
      if p <= p' { OperandSide(op, t, p, p'); }
    }
    if AllQuiet2(op, t, p, q + [L]) && AllQuiet2(op, t, p, q + [R]) && Quiet2(op, t, p, q) {
      forall p': Path, q': Path | IsOperand(op, t, p') && OnSpine(op, t, q') && p <= p' && q <= q' && p' != q'
        ensures Quiet2(op, t, p', q')
      {
        OperandSide(op, t, q, q');
      }
    }
  }

  lemma AllQuiet2Operands(op: Conn, t: Expr, p: Path, q: Path)
    requires IsOperand(op, t, p) && IsOperand(op, t, q)
    ensures AllQuiet2(op, t, p, q) <==> (p != q ==> Quiet2(op, t, p, q))
  {
    forall p': Path | IsOperand(op, t, p') ensures p <= p' ==> p == p' {
      if p <= p' { OperandSide(op, t, p, p'); }
    }
    forall q': Path | OnSpine(op, t, q') ensures q <= q' ==> q == q' {
      if q <= q' { OperandSide(op, t, q, q'); }
    }
  }

  lemma {:induction false} Dups2InnerQuiet(op: Conn, t: Expr, p: Path, q: Path)
    requires IsOperand(op, t, p) && OnSpine(op, t, q) && p != q
    ensures Dups2Inner(op, t, p, q).count == 0 <==> Quiet2(op, t, p, q)
  {
    if At(t, p).Bin? {
      Dups2Honest(At(t, p).op, At(t, p), [], []);
      PutAt(t, p);
    }
  }

  /** dups2 counts nothing exactly if no operand below its first slot contradicts any part of the
      spine below the second. */
  lemma {:induction false} Dups2Quiet(op: Conn, t: Expr, p: Path, q: Path)
    requires OnSpine(op, t, p) && OnSpine(op, t, q)
    ensures Dups2(op, t, p, q).count == 0 <==> AllQuiet2(op, t, p, q)
    decreases Leaves(t), 1 + SpineNodes(op, At(t, p)) + SpineNodes(op, At(t, q))
  {
    SameShapeRefl(op, t);
    if IsOp(op, At(t, p)) {
      SlotStep(op, t, t, p, q, L);
      SlotStep(op, t, t, p, q, R);
      Dups2Honest(op, t, p + [L], q);
      Dups2Quiet(op, t, p + [L], q);
      Dups2Quiet(op, t, p + [R], q);
      AllQuiet2Left(op, t, p, q);
    } else if IsOp(op, At(t, q)) {
      SlotStep(op, t, t, q, p, L);
      SlotStep(op, t, t, q, p, R);
      Dups2Honest(op, t, p, q + [L]);
      Dups2Quiet(op, t, p, q + [L]);
      Dups2Honest(op, t, p, q + [R]);
      Dups2Quiet(op, t, p, q + [R]);
      Dups2InnerQuiet(op, t, p, q);
      AllQuiet2Right(op, t, p, q);
    } else {
      AllQuiet2Operands(op, t, p, q);
      if p != q {
        Dups2InnerQuiet(op, t, p, q);
      }
    }
  }

  function FirstOperand(op: Conn, e: Expr): (p: Path)
    ensures IsOperand(op, e, p)
  {
    if IsOp(op, e) then
      var p := FirstOperand(op, e.left);
      assert ([L] + p)[1..] == p;
      [L] + p
    else []
  }

  /** An operand of an op node is never alone. */
  lemma OtherOperand(e: Expr, p: Path) returns (q: Path)
    requires e.Bin? && IsOperand(e.op, e, p)
    ensures IsOperand(e.op, e, q) && p != q
  {
    q := FirstOperand(e.op, e);
    if p == q {
      var r := FirstOperand(e.op, e.right);
      q := [R] + r;
      assert q[1..] == r;
    }
  }

  /** A round counts nothing, and the loop stops, exactly at the settled trees. */
  lemma {:induction false} RoundSettled(e: Expr)
    ensures Round(e).count == 0 <==> Settled(e)
    decreases Leaves(e)
  {
    if e.Bin? {
      forall p: Path | IsOperand(e.op, e, p) && At(e, p).Bin?
        ensures SettledOperand(e, p) <==> Round(At(e, p)).count == 0
      {
        OperandSmaller(e, p);
        RoundSettled(At(e, p));
      }
      if Round(e).count == 0 {
        RoundNoJoins(e);
        RoundNoContradictions(e);
        forall p: Path | IsOperand(e.op, e, p) && At(e, p).Bin? ensures SettledOperand(e, p) {
          RoundOperand(e, p);
        }
      } else if Settled(e) {
        SettledRound(e);
      }
    }
  }

  lemma RoundParts(e: Expr)
    requires e.Bin?
    ensures Round(e).count == 0 <==> Dups1(e.op, e, [], []).count == 0 && Dups2(e.op, e, [], []).count == 0
  {
    Dups1Honest(e.op, e, [], []);
  }

  lemma SettledRound(e: Expr)
    requires e.Bin? && Settled(e)
    requires forall p: Path :: IsOperand(e.op, e, p) && At(e, p).Bin? ==>
               (SettledOperand(e, p) <==> Round(At(e, p)).count == 0)
    ensures Round(e).count == 0
  {
    Dups1Quiet(e.op, e, [], []);
    Dups2Quiet(e.op, e, [], []);
    forall p: Path, q: Path | IsOperand(e.op, e, p) && IsOperand(e.op, e, q) && p != q
      ensures Quiet1(e.op, e, p, q)
    {
      if At(e, p).Bin? { RoundParts(At(e, p)); }
    }
    forall p: Path, q: Path | IsOperand(e.op, e, p) && OnSpine(e.op, e, q) && p != q
      ensures Quiet2(e.op, e, p, q)
    {
      if At(e, p).Bin? { RoundParts(At(e, p)); }
    }
    RoundParts(e);
  }

  lemma RoundQuiet1(e: Expr, p: Path, q: Path)
    requires e.Bin? && Round(e).count == 0 && IsOperand(e.op, e, p) && IsOperand(e.op, e, q) && p != q
    ensures Quiet1(e.op, e, p, q)
  {
    RoundParts(e);
    Dups1Quiet(e.op, e, [], []);
    assert [] <= p && [] <= q;
  }

  lemma RoundQuiet2(e: Expr, p: Path, q: Path)
    requires e.Bin? && Round(e).count == 0 && IsOperand(e.op, e, p) && OnSpine(e.op, e, q) && p != q
    ensures Quiet2(e.op, e, p, q)
  {
    RoundParts(e);
    Dups2Quiet(e.op, e, [], []);
    assert [] <= p && [] <= q;
  }

  lemma RoundOperand(e: Expr, p: Path)
    requires e.Bin? && Round(e).count == 0 && IsOperand(e.op, e, p) && At(e, p).Bin?
    ensures Round(At(e, p)).count == 0
  {
    var q := OtherOperand(e, p);
    RoundQuiet1(e, p, q);
    RoundQuiet2(e, p, q);
    RoundParts(At(e, p));
  }

  lemma RoundNoJoins(e: Expr)
    requires e.Bin? && Round(e).count == 0
    ensures NoJoins(e)
  {
    forall p: Path, q: Path | IsOperand(e.op, e, p) && IsOperand(e.op, e, q) && p != q
      ensures Join(e.op, At(e, p), At(e, q)).None?
    {
      RoundQuiet1(e, p, q);
    }
  }

  lemma RoundNoContradictions(e: Expr)
    requires e.Bin? && Round(e).count == 0
    ensures NoContradictions(e)
  {
    forall p: Path, q: Path | IsOperand(e.op, e, p) && At(e, p).Bin? && OnSpine(e.op, e, q) && p != q
      ensures !Contradicts(e.op, At(e, p), At(e, q))
    {
      RoundQuiet2(e, p, q);
    }
  }

  /** The result of expr_eliminate_dups is settled, and settled trees are left alone. */
  lemma {:induction false} EliminateDupsSettled(e: Expr)
    ensures Settled(EliminateDups(e))
    ensures EliminateDups(e) == e <==> Settled(e)
    decreases Leaves(e)
  {
    RoundHonest(e);
    RoundSettled(e);
    if Round(e).count > 0 {
      RoundShrinks(e);
      EliminateDupsSettled(EliminateYn(Round(e).tree));
    }
  }
}
