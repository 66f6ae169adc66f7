/**
 The slot-passing rewriters of package/config/expr.c, run in place on a store of trees with the
 global trans_count, and proved to compute the functions of `ExprEquality` and `ExprDups`.

 `trees` holds the trees owned by the variables of the running C functions, the locals of nested
 calls at the end; a slot is a path into one of them.
 */
module ExprSlots {
  import opened Expressions
  import opened ExprPaths
  import opened ExprTransform
  import opened ExprJoin
  import Eq = ExprEquality
  import Dups = ExprDups
  import Loop = ExprDupsLoop

  datatype Slot = Slot(tree: nat, path: Path) {
    function Down(d: Dir): Slot {
      Slot(tree, path + [d])
    }
  }

  ghost predicate HeldIn(trees: seq<Expr>, s: Slot) {
    s.tree < |trees| && ValidPath(trees[s.tree], s.path)
  }

  ghost function LoadIn(trees: seq<Expr>, s: Slot): Expr
    requires HeldIn(trees, s)
  {
    At(trees[s.tree], s.path)
  }

  /** The trees after *ep = x. */
  ghost function AfterWrite(trees: seq<Expr>, s: Slot, x: Expr): seq<Expr>
    requires HeldIn(trees, s)
  {
    trees[s.tree := Put(trees[s.tree], s.path, x)]
  }

  /** after is before with x written to s1 and y to s2. */
  ghost predicate Wrote(before: seq<Expr>, after: seq<Expr>, s1: Slot, x: Expr, s2: Slot, y: Expr)
    requires HeldIn(before, s1) && HeldIn(before, s2) && s1.tree != s2.tree
  {
    after == before[s1.tree := Put(before[s1.tree], s1.path, x)][s2.tree := Put(before[s2.tree], s2.path, y)]
  }

  lemma WroteHeld(before: seq<Expr>, after: seq<Expr>, s1: Slot, x: Expr, s2: Slot, y: Expr)
    requires HeldIn(before, s1) && HeldIn(before, s2) && s1.tree != s2.tree
    requires Wrote(before, after, s1, x, s2, y)
    ensures HeldIn(after, s1) && LoadIn(after, s1) == x
    ensures HeldIn(after, s2) && LoadIn(after, s2) == y
  {
    PutPut(before[s1.tree], s1.path, x, x);
    PutPut(before[s2.tree], s2.path, y, y);
  }

  lemma WroteNothing(before: seq<Expr>, s1: Slot, s2: Slot)
    requires HeldIn(before, s1) && HeldIn(before, s2) && s1.tree != s2.tree
    ensures Wrote(before, before, s1, LoadIn(before, s1), s2, LoadIn(before, s2))
  {
    PutAt(before[s1.tree], s1.path);
    PutAt(before[s2.tree], s2.path);
  }

  lemma WroteTwice(before: seq<Expr>, mid: seq<Expr>, after: seq<Expr>, s1: Slot, x: Expr, s2: Slot, y: Expr,
                   x': Expr, y': Expr)
    requires HeldIn(before, s1) && HeldIn(before, s2) && s1.tree != s2.tree
    requires Wrote(before, mid, s1, x, s2, y) && HeldIn(mid, s1) && HeldIn(mid, s2)
    requires Wrote(mid, after, s1, x', s2, y')
    ensures Wrote(before, after, s1, x', s2, y')
  {
    PutPut(before[s1.tree], s1.path, x, x');
    PutPut(before[s2.tree], s2.path, y, y');
  }

  lemma WroteSwap(before: seq<Expr>, after: seq<Expr>, s1: Slot, x: Expr, s2: Slot, y: Expr)
    requires HeldIn(before, s1) && HeldIn(before, s2) && s1.tree != s2.tree
    ensures Wrote(before, after, s1, x, s2, y) == Wrote(before, after, s2, y, s1, x)
  {
    var a := before[s1.tree := Put(before[s1.tree], s1.path, x)];
    var b := before[s2.tree := Put(before[s2.tree], s2.path, y)];
    assert a[s2.tree := Put(before[s2.tree], s2.path, y)] == b[s1.tree := Put(before[s1.tree], s1.path, x)];
  }

  lemma BelowSlot(trees: seq<Expr>, s: Slot, d: Dir)
    requires HeldIn(trees, s) && LoadIn(trees, s).Bin?
    ensures HeldIn(trees, s.Down(d)) && LoadIn(trees, s.Down(d)) == Child(LoadIn(trees, s), d)
  {
    assert [d][1..] == [];
    assert ValidPath(Child(LoadIn(trees, s), d), []);
    assert ValidPath(LoadIn(trees, s), [d]);
    PathThen(trees[s.tree], s.path, [d]);
  }

  /** Writing one step below a slot. */
  lemma WroteBelow(before: seq<Expr>, after: seq<Expr>, s1: Slot, d: Dir, x: Expr, s2: Slot, y: Expr)
    requires HeldIn(before, s1) && HeldIn(before, s2) && s1.tree != s2.tree
    requires LoadIn(before, s1).Bin? && HeldIn(before, s1.Down(d))
    requires Wrote(before, after, s1.Down(d), x, s2, y)
    ensures Wrote(before, after, s1, WithChild(LoadIn(before, s1), d, x), s2, y)
  {
    var e := LoadIn(before, s1);
    assert [d][1..] == [];
    assert ValidPath(Child(e, d), []);
    assert ValidPath(e, [d]);
    PathThen(before[s1.tree], s1.path, [d]);
    assert Put(e, [d], x) == WithChild(e, d, x);
  }

  /** After the left operand at s1 has been worked on together with s2. */
  lemma LeftDone(before: seq<Expr>, mid: seq<Expr>, s1: Slot, e1: Expr, s2: Slot, l: Expr, y: Expr)
    requires HeldIn(before, s1) && HeldIn(before, s2) && s1.tree != s2.tree
    requires LoadIn(before, s1) == e1 && e1.Bin? && HeldIn(before, s1.Down(L))
    requires Wrote(before, mid, s1.Down(L), l, s2, y)
    ensures Wrote(before, mid, s1, Bin(e1.op, l, e1.right), s2, y)
    ensures HeldIn(mid, s1) && LoadIn(mid, s1) == Bin(e1.op, l, e1.right)
    ensures HeldIn(mid, s2) && LoadIn(mid, s2) == y
    ensures HeldIn(mid, s1.Down(R)) && LoadIn(mid, s1.Down(R)) == e1.right
  {
    WroteBelow(before, mid, s1, L, l, s2, y);
    WroteHeld(before, mid, s1, Bin(e1.op, l, e1.right), s2, y);
    BelowSlot(mid, s1, R);
  }

  /** After the right operand has been worked on as well. */
  lemma BothDone(before: seq<Expr>, mid: seq<Expr>, after: seq<Expr>, s1: Slot, op: Conn, l: Expr, right: Expr, r: Expr,
                 s2: Slot, y: Expr, y': Expr)
    requires HeldIn(before, s1) && HeldIn(before, s2) && s1.tree != s2.tree
    requires Wrote(before, mid, s1, Bin(op, l, right), s2, y)
    requires HeldIn(mid, s1) && HeldIn(mid, s2) && LoadIn(mid, s1) == Bin(op, l, right) && HeldIn(mid, s1.Down(R))
    requires Wrote(mid, after, s1.Down(R), r, s2, y')
    ensures Wrote(before, after, s1, Bin(op, l, r), s2, y') && HeldIn(after, s1) && HeldIn(after, s2)
  {
    WroteBelow(mid, after, s1, R, r, s2, y');
    WroteTwice(before, mid, after, s1, Bin(op, l, right), s2, y, Bin(op, l, r), y');
    WroteHeld(before, after, s1, Bin(op, l, r), s2, y');
  }

  /** Slot base + p, inside the tree at base. */
  function Inside(base: Slot, p: Path): Slot {
    Slot(base.tree, base.path + p)
  }

  lemma InsideHeld(trees: seq<Expr>, base: Slot, p: Path)
    requires HeldIn(trees, base) && ValidPath(LoadIn(trees, base), p)
    ensures HeldIn(trees, Inside(base, p)) && LoadIn(trees, Inside(base, p)) == At(LoadIn(trees, base), p)
  {
    PathThen(trees[base.tree], base.path, p);
  }

  lemma InsideWrite(trees: seq<Expr>, base: Slot, p: Path, x: Expr)
    requires HeldIn(trees, base) && ValidPath(LoadIn(trees, base), p) && HeldIn(trees, Inside(base, p))
    ensures AfterWrite(trees, Inside(base, p), x) == AfterWrite(trees, base, Put(LoadIn(trees, base), p, x))
  {
    PathThen(trees[base.tree], base.path, p);
  }

  lemma AfterHeld(trees: seq<Expr>, base: Slot, x: Expr)
    requires HeldIn(trees, base)
    ensures HeldIn(AfterWrite(trees, base, x), base) && LoadIn(AfterWrite(trees, base, x), base) == x
  {
    PutPut(trees[base.tree], base.path, x, x);
  }

  lemma AfterTwice(trees: seq<Expr>, base: Slot, x: Expr, y: Expr)
    requires HeldIn(trees, base) && HeldIn(AfterWrite(trees, base, x), base)
    ensures AfterWrite(AfterWrite(trees, base, x), base, y) == AfterWrite(trees, base, y)
  {
    PutPut(trees[base.tree], base.path, x, y);
  }

  lemma AfterNothing(trees: seq<Expr>, base: Slot)
    requires HeldIn(trees, base)
    ensures AfterWrite(trees, base, LoadIn(trees, base)) == trees
  {
    PutAt(trees[base.tree], base.path);
  }

  class Store {
    var trees: seq<Expr>
    var transCount: nat

    predicate Holds(s: Slot)
      reads this
    {
      s.tree < |trees| && ValidPath(trees[s.tree], s.path)
    }

    /** *ep */
    function Load(s: Slot): Expr
      reads this
      requires Holds(s)
    {
      At(trees[s.tree], s.path)
    }

    /** *ep = e */
    method Assign(s: Slot, e: Expr)
      requires Holds(s)
      modifies this`trees
      ensures trees == AfterWrite(old(trees), s, e)
      ensures Holds(s) && Load(s) == e
    {
      PutPut(trees[s.tree], s.path, e, e);
      trees := trees[s.tree := Put(trees[s.tree], s.path, e)];
    }

    /** *ep1 = x, then *ep2 = y */
    method AssignBoth(s1: Slot, x: Expr, s2: Slot, y: Expr)
      requires Holds(s1) && Holds(s2) && s1.tree != s2.tree
      modifies this`trees
      ensures Wrote(old(trees), trees, s1, x, s2, y)
      ensures Holds(s1) && Holds(s2) && Load(s1) == x && Load(s2) == y
    {
      ghost var before := trees;
      Assign(s1, x);
      Assign(s2, y);
      WroteHeld(before, trees, s1, x, s2, y);
    }

    /** __expr_eliminate_eq */
    method EliminateEqSpine(op: Conn, s1: Slot, s2: Slot)
      requires Holds(s1) && Holds(s2) && s1.tree != s2.tree
      modifies this
      ensures var r := Eq.EliminateEqSpine(op, old(Load(s1)), old(Load(s2)));
        Wrote(old(trees), trees, s1, r.fst, s2, r.snd) && transCount == old(transCount) + r.count
      ensures Holds(s1) && Holds(s2)
      decreases Eq.Size(Load(s1)) + Eq.Size(Load(s2)), if Eq.IsOp(op, Load(s1)) || Eq.IsOp(op, Load(s2)) then 0 else 3
    {
      var e1, e2 := Load(s1), Load(s2);
      ghost var before := trees;
      WroteNothing(before, s1, s2);
      if Eq.IsOp(op, e1) {
        ghost var p := Eq.EliminateEqSpine(op, e1.left, e2);
        BelowSlot(trees, s1, L);
        EliminateEqSpine(op, s1.Down(L), s2);
        ghost var mid := trees;
        LeftDone(before, mid, s1, e1, s2, p.fst, p.snd);
        ghost var q := Eq.EliminateEqSpine(op, e1.right, p.snd);
        EliminateEqSpine(op, s1.Down(R), s2);
        BothDone(before, mid, trees, s1, op, p.fst, e1.right, q.fst, s2, p.snd, q.snd);
      } else if Eq.IsOp(op, e2) {
        ghost var p := Eq.EliminateEqSpine(op, e1, e2.left);
        BelowSlot(trees, s2, L);
        EliminateEqSpine(op, s1, s2.Down(L));
        ghost var mid := trees;
        WroteSwap(before, mid, s1, p.fst, s2.Down(L), p.snd);
        LeftDone(before, mid, s2, e2, s1, p.snd, p.fst);
        ghost var q := Eq.EliminateEqSpine(op, p.fst, e2.right);
        EliminateEqSpine(op, s1, s2.Down(R));
        WroteSwap(mid, trees, s1, q.fst, s2.Down(R), q.snd);
        BothDone(before, mid, trees, s2, op, p.snd, e2.right, q.snd, s1, p.fst, q.fst);
        WroteSwap(before, trees, s2, Bin(op, p.snd, q.snd), s1, q.fst);
      } else if !(e1.Symbol? && e2.Symbol? && e1.sym == e2.sym && e1.sym.HasYesOrNoFlag()) {
        var same := ExprEq(e1, e2);
        if same {
          transCount := transCount + 1;
          AssignBoth(s1, Symbol(Neutral(op)), s2, Symbol(Neutral(op)));
        }
      }
    }

    /** expr_eliminate_eq */
    method EliminateEq(s1: Slot, s2: Slot)
      requires Holds(s1) && Holds(s2) && s1.tree != s2.tree
      modifies this
      ensures var r := Eq.EliminateEq(old(Load(s1)), old(Load(s2)));
        Wrote(old(trees), trees, s1, r.fst, s2, r.snd) && transCount == old(transCount) + r.count
      ensures Holds(s1) && Holds(s2)
      decreases Eq.Size(Load(s1)) + Eq.Size(Load(s2)), 1
    {
      ghost var before, e1, e2 := trees, Load(s1), Load(s2);
      WroteNothing(before, s1, s2);
      if Load(s1).Bin? {
        EliminateEqSpine(Load(s1).op, s1, s2);
      }
      ghost var p := if e1.Bin? then Eq.EliminateEqSpine(e1.op, e1, e2) else Eq.Pair(e1, e2, 0);
      ghost var mid := trees;
      WroteHeld(before, mid, s1, p.fst, s2, p.snd);
      WroteNothing(mid, s1, s2);
      if !Eq.SameType(Load(s1), Load(s2)) && Load(s2).Bin? {
        EliminateEqSpine(Load(s2).op, s1, s2);
      }
      ghost var q := if !Eq.SameType(p.fst, p.snd) && p.snd.Bin? then Eq.EliminateEqSpine(p.snd.op, p.fst, p.snd)
                     else Eq.Pair(p.fst, p.snd, 0);
      WroteTwice(before, mid, trees, s1, p.fst, s2, p.snd, q.fst, q.snd);
      mid := trees;
      WroteHeld(before, mid, s1, q.fst, s2, q.snd);
      AssignBoth(s1, EliminateYn(Load(s1)), s2, EliminateYn(Load(s2)));
      WroteTwice(before, mid, trees, s1, q.fst, s2, q.snd, EliminateYn(q.fst), EliminateYn(q.snd));
    }

    /** expr_eq works on copies of its arguments and restores trans_count. */
    method ExprEq(e1: Expr, e2: Expr) returns (res: bool)
      modifies this
      ensures res == Eq.ExprEq(e1, e2)
      ensures trees == old(trees) && transCount == old(transCount)
      decreases Eq.Size(e1) + Eq.Size(e2), 2
    {
      if !Eq.SameType(e1, e2) {
        return false;
      }
      match e1
      case Symbol(s) => res := s == e2.sym;
      case Comp(_, a, b) => res := a == e2.lhs && b == e2.rhs;
      case Not(a) => res := ExprEq(a, e2.sub);
      case Bin(_, _, _) =>
        var n, oldCount := |trees|, transCount;
        trees := trees + [e1, e2];
        EliminateEq(Slot(n, []), Slot(n + 1, []));
        res := trees[n].Symbol? && trees[n + 1].Symbol? && trees[n].sym == trees[n + 1].sym;
        trees := trees[..n];
        transCount := oldCount;
    }

    /** expr_extract_eq; the accumulator *ep is the result. */
    method ExtractEq(op: Conn, acc: Option<Expr>, s1: Slot, s2: Slot) returns (acc': Option<Expr>)
      requires Holds(s1) && Holds(s2) && s1.tree != s2.tree
      modifies this
      ensures var r := Eq.ExtractEq(op, acc, old(Load(s1)), old(Load(s2)));
        Wrote(old(trees), trees, s1, r.fst, s2, r.snd) && acc' == r.acc
      ensures Holds(s1) && Holds(s2) && transCount == old(transCount)
      decreases Eq.Size(Load(s1)) + Eq.Size(Load(s2))
    {
      var e1, e2 := Load(s1), Load(s2);
      ghost var before := trees;
      WroteNothing(before, s1, s2);
      if Eq.IsOp(op, e1) {
        ghost var p := Eq.ExtractEq(op, acc, e1.left, e2);
        BelowSlot(trees, s1, L);
        acc' := ExtractEq(op, acc, s1.Down(L), s2);
        ghost var mid := trees;
        LeftDone(before, mid, s1, e1, s2, p.fst, p.snd);
        ghost var q := Eq.ExtractEq(op, p.acc, e1.right, p.snd);
        acc' := ExtractEq(op, acc', s1.Down(R), s2);
        BothDone(before, mid, trees, s1, op, p.fst, e1.right, q.fst, s2, p.snd, q.snd);
      } else if Eq.IsOp(op, e2) {
        ghost var p := Eq.ExtractEq(op, acc, e1, e2.left);
        BelowSlot(trees, s2, L);
        acc' := ExtractEq(op, acc, s1, s2.Down(L));
        ghost var mid := trees;
        WroteSwap(before, mid, s1, p.fst, s2.Down(L), p.snd);
        LeftDone(before, mid, s2, e2, s1, p.snd, p.fst);
        ghost var q := Eq.ExtractEq(op, p.acc, p.fst, e2.right);
        acc' := ExtractEq(op, acc', s1, s2.Down(R));
        WroteSwap(mid, trees, s1, q.fst, s2.Down(R), q.snd);
        BothDone(before, mid, trees, s2, op, p.snd, e2.right, q.snd, s1, p.fst, q.fst);
        WroteSwap(before, trees, s2, Bin(op, p.snd, q.snd), s1, q.fst);
      } else {
        acc' := acc;
        var same := ExprEq(e1, e2);
        if same {
          acc' := Some(if acc.None? then e1 else Bin(op, acc.value, e1));
          AssignBoth(s1, Symbol(Neutral(op)), s2, Symbol(Neutral(op)));
        }
      }
    }

    /** The test in expr_eliminate_dups2, on a negated copy of e1 and a copy of e2 held in two
        local variables (expr_extract_eq_and, expr_extract_eq_or, expr_is_yes, expr_is_no). */
    method Contradicts(op: Conn, e1: Expr, e2: Expr) returns (res: bool)
      modifies this
      ensures res == Dups.Contradicts(op, e1, e2)
      ensures trees == old(trees) && transCount == old(transCount)
    {
      var n := |trees|;
      trees := trees + [Transform(Not(e1)), e2];
      var tmp := ExtractEq(op, None, Slot(n, []), Slot(n + 1, []));
      if tmp.Some? {
        Assign(Slot(n, []), EliminateYn(trees[n]));
        Assign(Slot(n + 1, []), EliminateYn(trees[n + 1]));
      }
      res := trees[n] == Symbol(Neutral(op));
      trees := trees[..n];
    }

    /** Aliased slots: base + p lies on the op-spine of the tree at base. */
    ghost predicate Region(op: Conn, base: Slot, p: Path)
      reads this
    {
      Holds(base) && OnSpine(op, Load(base), p)
    }

    /** expr_eliminate_dups1 with both slots in one tree. */
    method EliminateDups1(op: Conn, base: Slot, p: Path, q: Path)
      requires Region(op, base, p) && Region(op, base, q)
      modifies this
      ensures var r := Dups.Dups1(op, old(Load(base)), p, q);
        trees == AfterWrite(old(trees), base, r.tree) && transCount == old(transCount) + r.count
      decreases Leaves(Load(base)), 1 + SpineNodes(op, At(Load(base), p)) + SpineNodes(op, At(Load(base), q))
    {
      ghost var before, t := trees, Load(base);
      InsideHeld(trees, base, p);
      InsideHeld(trees, base, q);
      AfterNothing(trees, base);
      SameShapeRefl(op, t);
      if Eq.IsOp(op, Load(Inside(base, p))) {
        SlotStep(op, t, t, p, q, L);
        ghost var a := Dups.Dups1(op, t, p + [L], q);
        EliminateDups1(op, base, p + [L], q);
        AfterHeld(before, base, a.tree);
        SlotStep(op, t, a.tree, p, q, R);
        EliminateDups1(op, base, p + [R], q);
        AfterTwice(before, base, a.tree, Dups.Dups1(op, a.tree, p + [R], q).tree);
      } else if Eq.IsOp(op, Load(Inside(base, q))) {
        SlotStep(op, t, t, q, p, L);
        ghost var a := Dups.Dups1(op, t, p, q + [L]);
        EliminateDups1(op, base, p, q + [L]);
        AfterHeld(before, base, a.tree);
        SlotStep(op, t, a.tree, q, p, R);
        EliminateDups1(op, base, p, q + [R]);
        AfterTwice(before, base, a.tree, Dups.Dups1(op, a.tree, p, q + [R]).tree);
      } else if p != q {
        EliminateDups1Inner(op, base, p, q);
        ghost var a := Dups.Dups1Inner(op, t, p, q);
        AfterHeld(before, base, a.tree);
        JoinSlots(op, base, p, q);
        AfterTwice(before, base, a.tree, Dups.JoinSlots(op, a.tree, p, q).tree);
      }
    }

    /** The nested call of expr_eliminate_dups1 on its first slot. */
    method EliminateDups1Inner(op: Conn, base: Slot, p: Path, q: Path)
      requires Region(op, base, p) && Region(op, base, q)
      requires IsOperand(op, Load(base), p) && IsOperand(op, Load(base), q) && p != q
      modifies this
      ensures var r := Dups.Dups1Inner(op, old(Load(base)), p, q);
        trees == AfterWrite(old(trees), base, r.tree) && transCount == old(transCount) + r.count
      decreases Leaves(Load(base)), 0
    {
      ghost var before, t := trees, Load(base);
      InsideHeld(trees, base, p);
      AfterNothing(trees, base);
      if Load(Inside(base, p)).Bin? {
        OperandsSmaller(op, t, p, q);
        var op1 := Load(Inside(base, p)).op;
        EliminateDups1(op1, Inside(base, p), [], []);
        InsideWrite(before, base, p, Dups.Dups1(op1, At(t, p), [], []).tree);
      }
    }

    /** The end of expr_eliminate_dups1: both slots are written if the operands join. */
    method JoinSlots(op: Conn, base: Slot, p: Path, q: Path)
      requires Region(op, base, p) && Region(op, base, q)
      requires IsOperand(op, Load(base), p) && IsOperand(op, Load(base), q) && p != q
      modifies this
      ensures var r := Dups.JoinSlots(op, old(Load(base)), p, q);
        trees == AfterWrite(old(trees), base, r.tree) && transCount == old(transCount) + r.count
    {
      ghost var before, t := trees, Load(base);
      InsideHeld(trees, base, p);
      InsideHeld(trees, base, q);
      AfterNothing(trees, base);
      var j := JoinTrees(op, Load(Inside(base, p)), Load(Inside(base, q)));
      if j.Some? {
        var n := Symbol(Neutral(op));
        InsideWrite(before, base, p, n);
        Assign(Inside(base, p), n);
        ghost var t1 := Put(t, p, n);
        AfterHeld(before, base, t1);
        PutOperand(op, t, p, n);
        SameShapeAt(op, t, t1, q);
        InsideHeld(trees, base, q);
        InsideWrite(trees, base, q, j.value);
        Assign(Inside(base, q), j.value);
        AfterTwice(before, base, t1, Put(t1, q, j.value));
        transCount := transCount + 1;
      }
    }

    /** expr_join_or and expr_join_and look at their arguments and return a new tree. */
    method JoinTrees(op: Conn, e1: Expr, e2: Expr) returns (j: Option<Expr>)
      modifies this
      ensures j == Join(op, e1, e2)
      ensures trees == old(trees) && transCount == old(transCount)
    {
      var same := ExprEq(e1, e2);
      j := if same then Some(e1) else Join(op, e1, e2);
    }

    /** expr_eliminate_dups2 with both slots in one tree. */
    method EliminateDups2(op: Conn, base: Slot, p: Path, q: Path)
      requires Region(op, base, p) && Region(op, base, q)
      modifies this
      ensures var r := Dups.Dups2(op, old(Load(base)), p, q);
        trees == AfterWrite(old(trees), base, r.tree) && transCount == old(transCount) + r.count
      decreases Leaves(Load(base)), 1 + SpineNodes(op, At(Load(base), p)) + SpineNodes(op, At(Load(base), q))
    {
      ghost var before, t := trees, Load(base);
      InsideHeld(trees, base, p);
      InsideHeld(trees, base, q);
      AfterNothing(trees, base);
      SameShapeRefl(op, t);
      if Eq.IsOp(op, Load(Inside(base, p))) {
        SlotStep(op, t, t, p, q, L);
        ghost var a := Dups.Dups2(op, t, p + [L], q);
        EliminateDups2(op, base, p + [L], q);
        AfterHeld(before, base, a.tree);
        SlotStep(op, t, a.tree, p, q, R);
        EliminateDups2(op, base, p + [R], q);
        AfterTwice(before, base, a.tree, Dups.Dups2(op, a.tree, p + [R], q).tree);
        return;
      }
      ghost var b := t;
      if Eq.IsOp(op, Load(Inside(base, q))) {
        SlotStep(op, t, t, q, p, L);
        ghost var a := Dups.Dups2(op, t, p, q + [L]);
        EliminateDups2(op, base, p, q + [L]);
        AfterHeld(before, base, a.tree);
        SlotStep(op, t, a.tree, q, p, R);
        EliminateDups2(op, base, p, q + [R]);
        b := Dups.Dups2(op, a.tree, p, q + [R]).tree;
        AfterTwice(before, base, a.tree, b);
        AfterHeld(before, base, b);
        SameShapeTrans(op, t, a.tree, b);
        SameShapeAt(op, t, b, p);
        SameShapeAt(op, t, b, q);
      }
      if p != q {
        EliminateDups2Inner(op, base, p, q);
        AfterTwice(before, base, b, Dups.Dups2Inner(op, b, p, q).tree);
      }
    }

    /** The switch of expr_eliminate_dups2. */
    method EliminateDups2Inner(op: Conn, base: Slot, p: Path, q: Path)
      requires Region(op, base, p) && Region(op, base, q)
      requires IsOperand(op, Load(base), p) && p != q
      modifies this
      ensures var r := Dups.Dups2Inner(op, old(Load(base)), p, q);
        trees == AfterWrite(old(trees), base, r.tree) && transCount == old(transCount) + r.count
      decreases Leaves(Load(base)), 0
    {
      ghost var before, t := trees, Load(base);
      InsideHeld(trees, base, p);
      AfterNothing(trees, base);
      if Load(Inside(base, p)).Bin? {
        OperandsSmaller(op, t, p, q);
        var op1 := Load(Inside(base, p)).op;
        EliminateDups2(op1, Inside(base, p), [], []);
        ghost var a := Dups.Dups2(op1, At(t, p), [], []);
        ghost var t1 := Put(t, p, a.tree);
        InsideWrite(before, base, p, a.tree);
        AfterHeld(before, base, t1);
        PutOperand(op, t, p, a.tree);
        SameShapeAt(op, t, t1, p);
        SameShapeAt(op, t, t1, q);
        InsideHeld(trees, base, p);
        InsideHeld(trees, base, q);
        var fires := Contradicts(op, Load(Inside(base, p)), Load(Inside(base, q)));
        if fires {
          InsideWrite(trees, base, p, Symbol(Absorbing(op)));
          Assign(Inside(base, p), Symbol(Absorbing(op)));
          AfterTwice(before, base, t1, Put(t1, p, Symbol(Absorbing(op))));
          transCount := transCount + 1;
        }
      }
    }

    /** expr_eliminate_dups: the loop runs until a round leaves trans_count at 0. */
    method EliminateDups(e: Expr) returns (r: Expr)
      modifies this
      ensures r == Loop.EliminateDups(e)
      ensures trees == old(trees) && transCount == old(transCount)
    {
      var oldCount := transCount;
      var n := |trees|;
      var slot := Slot(n, []);
      trees := trees + [e];
      while true
        invariant |trees| == n + 1 && trees[..n] == old(trees)
        invariant Loop.EliminateDups(trees[n]) == Loop.EliminateDups(e)
        decreases Leaves(trees[n])
      {
        transCount := 0;
        ghost var cur := trees[n];
        var op := if trees[n].Bin? then trees[n].op else AND;
        if trees[n].Bin? {
          EliminateDups1(op, slot, [], []);
          EliminateDups2(op, slot, [], []);
        }
        assert Dups.Outcome(trees[n], transCount) == Loop.Round(cur);
        if transCount == 0 {
          break;
        }
        Loop.RoundShrinks(cur);
        trees := trees[n := EliminateYn(trees[n])];
      }
      Loop.RoundHonest(trees[n]);
      r := trees[n];
      trees := trees[..n];
      transCount := oldCount;
    }
  }
}
