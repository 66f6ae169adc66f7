/**
 What package/config/menu.c makes of the prompts of a choice's members: conditions that are bound by
 the choice, however much expr_eliminate_dups simplifies them.
 */
module ChoiceBound {
  import opened Expressions
  import opened ExprEquality
  import opened ExprTransform
  import opened ExprJoin
  import opened ExprPaths
  import opened ExprDups
  import opened ExprDupsLoop
  import opened ExprVisibility
  import opened SymbolValues
  import opened MenuForest
  import opened MenuTree

  /** Joining an operand that binds gives one. */
  lemma JoinBinds(e1: Expr, e2: Expr, c: Sym)
    requires IsTristateLike(c) && JoinAnd(e1, e2).Some? && (Binds(e1, c) || Binds(e2, c))
    ensures Binds(JoinAnd(e1, e2).value, c)
  {
    if ExprEq(e1, e2) {
      EqualLiterals(e1, e2);
    }
  }

  lemma EqualLiterals(e1: Expr, e2: Expr)
    requires ExprEq(e1, e2) && (e1.Symbol? || e1.Comp? || e2.Symbol? || e2.Comp?)
    ensures e1 == e2
  {
  }

  /** Writing an operand that binds. */
  lemma {:induction false} PutBinds(t: Expr, p: Path, x: Expr, c: Sym)
    requires OnSpine(AND, t, p) && Binds(x, c)
    ensures BoundBy(Put(t, p, x), c)
  {
    if p != [] {
      PutBinds(Child(t, p[0]), p[1..], x, c);
    }
  }

  /** Writing an operand that did not bind. */
  lemma {:induction false} PutElse(t: Expr, p: Path, x: Expr, c: Sym)
    requires IsOperand(AND, t, p) && BoundBy(t, c) && !Binds(At(t, p), c)
    ensures BoundBy(Put(t, p, x), c)
  {
    if p != [] && BoundBy(Child(t, p[0]), c) {
      PutElse(Child(t, p[0]), p[1..], x, c);
    }
  }

  lemma JoinSlotsBound(t: Expr, p: Path, q: Path, c: Sym)
    requires IsTristateLike(c) && IsOperand(AND, t, p) && IsOperand(AND, t, q) && p != q && BoundBy(t, c)
    ensures BoundBy(JoinSlots(AND, t, p, q).tree, c)
  {
    var j := Join(AND, At(t, p), At(t, q));
    if j.Some? {
      var t1 := Put(t, p, YesExpr);
      PutOperand(AND, t, p, YesExpr);
      PutElsewhere(AND, t, p, q, YesExpr);
      SameShapeAt(AND, t, t1, q);
      if Binds(At(t, p), c) || Binds(At(t, q), c) {
        JoinBinds(At(t, p), At(t, q), c);
        PutBinds(t1, q, j.value, c);
      } else {
        PutElse(t, p, YesExpr, c);
        PutElse(t1, q, j.value, c);
      }
    }
  }

  lemma {:induction false} Dups1Bound(t: Expr, p: Path, q: Path, c: Sym)
    requires IsTristateLike(c) && OnSpine(AND, t, p) && OnSpine(AND, t, q) && BoundBy(t, c)
    ensures BoundBy(Dups1(AND, t, p, q).tree, c)
    decreases SpineNodes(AND, At(t, p)) + SpineNodes(AND, At(t, q))
  {
    SameShapeRefl(AND, t);
    if IsOp(AND, At(t, p)) {
      SlotStep(AND, t, t, p, q, L);
      var a := Dups1(AND, t, p + [L], q);
      Dups1Bound(t, p + [L], q, c);
      SlotStep(AND, t, a.tree, p, q, R);
      Dups1Bound(a.tree, p + [R], q, c);
    } else if IsOp(AND, At(t, q)) {
      SlotStep(AND, t, t, q, p, L);
      var a := Dups1(AND, t, p, q + [L]);
      Dups1Bound(t, p, q + [L], c);
      SlotStep(AND, t, a.tree, q, p, R);
      Dups1Bound(a.tree, p, q + [R], c);
    } else if p != q {
      var s := At(t, p);
      if s.Bin? {
        OperandsSmaller(AND, t, p, q);
        PutElse(t, p, Dups1(s.op, s, [], []).tree, c);
      }
      JoinSlotsBound(Dups1Inner(AND, t, p, q).tree, p, q, c);
    }
  }

  lemma Dups2InnerBound(t: Expr, p: Path, q: Path, c: Sym)
    requires IsOperand(AND, t, p) && OnSpine(AND, t, q) && p != q && BoundBy(t, c)
    ensures BoundBy(Dups2Inner(AND, t, p, q).tree, c)
  {
    var s := At(t, p);
    if s.Bin? {
      OperandsSmaller(AND, t, p, q);
      var a := Dups2(s.op, s, [], []);
      var t1 := Put(t, p, a.tree);
      PutOperand(AND, t, p, a.tree);
      SameShapeAt(AND, t, t1, p);
      SameShapeAt(AND, t, t1, q);
      PutElse(t, p, a.tree, c);
      PutBinds(t1, p, NoExpr, c);
    }
  }

  lemma {:induction false} Dups2Bound(t: Expr, p: Path, q: Path, c: Sym)
    requires OnSpine(AND, t, p) && OnSpine(AND, t, q) && BoundBy(t, c)
    ensures BoundBy(Dups2(AND, t, p, q).tree, c)
    decreases SpineNodes(AND, At(t, p)) + SpineNodes(AND, At(t, q))
  {
    SameShapeRefl(AND, t);
    if IsOp(AND, At(t, p)) {
      SlotStep(AND, t, t, p, q, L);
      var a := Dups2(AND, t, p + [L], q);
      Dups2Bound(t, p + [L], q, c);
      SlotStep(AND, t, a.tree, p, q, R);
      Dups2Bound(a.tree, p + [R], q, c);
    } else if IsOp(AND, At(t, q)) {
      SlotStep(AND, t, t, q, p, L);
      var a := Dups2(AND, t, p, q + [L]);
      Dups2Bound(t, p, q + [L], c);
      SlotStep(AND, t, a.tree, q, p, R);
      var b := Dups2(AND, a.tree, p, q + [R]);
      Dups2Bound(a.tree, p, q + [R], c);
      SameShapeTrans(AND, t, a.tree, b.tree);
      SameShapeAt(AND, t, b.tree, p);
      SameShapeAt(AND, t, b.tree, q);
      Dups2InnerBound(b.tree, p, q, c);
    } else if p != q {
      Dups2InnerBound(t, p, q, c);
    }
  }

  lemma {:induction false} EliminateYnBound(e: Expr, c: Sym)
    requires IsTristateLike(c) && BoundBy(e, c)
    ensures BoundBy(EliminateYn(e), c)
  {
    if e.Bin? {
      if BoundBy(e.left, c) {
        EliminateYnBound(e.left, c);
      } else {
        EliminateYnBound(e.right, c);
      }
    }
  }

  lemma {:induction false} EliminateDupsBound(e: Expr, c: Sym)
    requires IsTristateLike(c) && BoundBy(e, c)
    ensures BoundBy(EliminateDups(e), c)
    decreases Leaves(e)
  {
    var r := Round(e);
    if e.Bin? {
      var a := Dups1(AND, e, [], []);
      Dups1Bound(e, [], [], c);
      Dups2Bound(a.tree, [], [], c);
    }
    if r.count > 0 {
      RoundShrinks(e);
      EliminateYnBound(r.tree, c);
      EliminateDupsBound(EliminateYn(r.tree), c);
    }
  }

  lemma {:induction false} TransBoolBound(e: Expr, c: Sym)
    requires BoundBy(e, c)
    ensures BoundBy(TransBool(e), c)
  {
    if e.Bin? {
      if BoundBy(e.left, c) {
        TransBoolBound(e.left, c);
      } else {
        TransBoolBound(e.right, c);
      }
    }
  }

  /** menu_finalize passes the choice itself down to the entries directly below it, and to those in blocks
      of conditions inside it what it has passed down to the block; whatever conditions of their own they
      have, what it stores for entries and prompts is bound by the choice. */
  lemma MemberPromptBound(c: Sym, cond: Option<Expr>, dep: Option<Expr>, visible: Option<Expr>, relax: bool)
    requires IsTristateLike(c) && cond.Some? && BoundBy(cond.value, c)
    ensures var base := BaseDependency(cond, dep);
      base.Some? && BoundBy(base.value, c)
    ensures var v := PropertyVisibility(BaseDependency(cond, dep), visible, relax);
      v.Some? && BoundBy(v.value, c)
  {
    var e := AllocAnd(cond, MapOption(Transform, dep));
    EliminateDupsBound(e.value, c);
    var base := BaseDependency(cond, dep);
    var e' := AllocAnd(base, MapOption(Transform, visible));
    EliminateDupsBound(e'.value, c);
    TransBoolBound(EliminateDups(e'.value), c);
  }

  // ---- In the menu ----

  predicate BoundOption(e: Option<Expr>, c: Sym) {
    e.Some? && BoundBy(e.value, c)
  }

  predicate BoundAt(prompted: set<nat>, dep: map<nat, Expr>, visible: map<nat, Expr>, i: nat, c: Sym) {
    BoundOption(Lookup(dep, i), c) && (i in prompted ==> BoundOption(Lookup(visible, i), c))
  }

  lemma PassedBound(menus: Menus, cond: Option<Expr>, dep0: map<nat, Expr>, visible0: map<nat, Expr>,
                    dep1: map<nat, Expr>, visible1: map<nat, Expr>, ids: set<nat>, c: Sym)
    requires IsTristateLike(c) && BoundOption(cond, c) && menus.AllPassed(cond, dep0, visible0, dep1, visible1, ids)
    ensures forall i :: i in ids ==> BoundAt(menus.prompted, dep1, visible1, i, c)
  {
    forall i | i in ids ensures BoundAt(menus.prompted, dep1, visible1, i, c) {
      assert menus.Passed(cond, dep0, visible0, dep1, visible1, i);
      MemberPromptBound(c, cond, Lookup(dep0, i), Lookup(visible0, i), menus.Relaxed(i));
    }
  }

  /** Once conditions have been handed down, every entry below a choice, at any depth, is bound by it,
      unless another choice is in between. */
  lemma {:induction false} BelowChoiceBound(menus: Menus, dep0: map<nat, Expr>, visible0: map<nat, Expr>,
                                            dep1: map<nat, Expr>, visible1: map<nat, Expr>, f: Forest, c: Sym)
    requires IsTristateLike(c) && menus.Inherited(dep0, visible0, dep1, visible1, f, Empty)
    requires forall i :: i in TopIds(f) ==> BoundAt(menus.prompted, dep1, visible1, i, c)
    requires forall i :: i in Ids(f) ==> i !in menus.choices
    ensures forall i :: i in Ids(f) ==> BoundAt(menus.prompted, dep1, visible1, i, c)
    decreases f
  {
    if f.Entry? {
      assert BoundAt(menus.prompted, dep1, visible1, f.id, c);
      PassedBound(menus, menus.ParentCondition(dep1, visible1, f.id), dep0, visible0, dep1, visible1, TopIds(f.kids),
        c);
      BelowChoiceBound(menus, dep0, visible0, dep1, visible1, f.kids, c);
      BelowChoiceBound(menus, dep0, visible0, dep1, visible1, f.rest, c);
    }
  }

  /** So are all entries below the entry of a choice. */
  lemma ChoiceEntryBound(menus: Menus, dep0: map<nat, Expr>, visible0: map<nat, Expr>,
                         dep1: map<nat, Expr>, visible1: map<nat, Expr>, f: Forest)
    requires f.Entry? && f.id in menus.choices && f.id in menus.sym && IsTristateLike(menus.sym[f.id])
    requires menus.Inherited(dep0, visible0, dep1, visible1, f, Empty)
    requires forall i :: i in Ids(f.kids) ==> i !in menus.choices
    ensures forall i :: i in Ids(f.kids) ==> BoundAt(menus.prompted, dep1, visible1, i, menus.sym[f.id])
  {
    var c := menus.sym[f.id];
    PassedBound(menus, Some(Symbol(c)), dep0, visible0, dep1, visible1, TopIds(f.kids), c);
    BelowChoiceBound(menus, dep0, visible0, dep1, visible1, f.kids, c);
  }
}
