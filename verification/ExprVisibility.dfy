/**
 How menu_finalize uses the expression engine: expr_trans_compare, the visibility it computes
 for every property, and the test by which a sibling entry becomes a child.
 */
module ExprVisibility {
  import opened Expressions
  import opened ExprEquality
  import opened ExprTransform
  import opened ExprJoin
  import opened ExprPaths
  import opened ExprDups
  import opened ExprDupsLoop

  // ---- expr_eliminate_dups keeps expressions tidy ----

  lemma {:induction false} AtTidy(e: Expr, p: Path, typed: bool)
    requires Tidy(e, typed) && ValidPath(e, p)
    ensures Tidy(At(e, p), typed)
  {
    if p != [] {
      AtTidy(Child(e, p[0]), p[1..], typed);
    }
  }

  lemma {:induction false} PutTidy(e: Expr, p: Path, x: Expr, typed: bool)
    requires Tidy(e, typed) && Tidy(x, typed) && ValidPath(e, p)
    ensures Tidy(Put(e, p, x), typed)
  {
    if p != [] {
      PutTidy(Child(e, p[0]), p[1..], x, typed);
    }
  }

  lemma JoinSlotsTidy(op: Conn, t: Expr, p: Path, q: Path, typed: bool)
    requires IsOperand(op, t, p) && IsOperand(op, t, q) && p != q && Tidy(t, typed)
    ensures Tidy(JoinSlots(op, t, p, q).tree, typed)
  {
    var j := Join(op, At(t, p), At(t, q));
    if j.Some? {
      var n := Symbol(Neutral(op));
      AtTidy(t, p, typed);
      AtTidy(t, q, typed);
      JoinTidy(op, At(t, p), At(t, q), typed);
      PutTidy(t, p, n, typed);
      PutOperand(op, t, p, n);
      SameShapeAt(op, t, Put(t, p, n), q);
      PutTidy(Put(t, p, n), q, j.value, typed);
    }
  }

  lemma {:induction false} Dups1Tidy(op: Conn, t: Expr, p: Path, q: Path, typed: bool)
    requires OnSpine(op, t, p) && OnSpine(op, t, q) && Tidy(t, typed)
    ensures Tidy(Dups1(op, t, p, q).tree, typed)
    decreases Leaves(t), 1 + SpineNodes(op, At(t, p)) + SpineNodes(op, At(t, q))
  {
    SameShapeRefl(op, t);
    if IsOp(op, At(t, p)) {
      SlotStep(op, t, t, p, q, L);
      var a := Dups1(op, t, p + [L], q);
      Dups1Tidy(op, t, p + [L], q, typed);
      SlotStep(op, t, a.tree, p, q, R);
      Dups1Tidy(op, a.tree, p + [R], q, typed);
    } else if IsOp(op, At(t, q)) {
      SlotStep(op, t, t, q, p, L);
      var a := Dups1(op, t, p, q + [L]);
      Dups1Tidy(op, t, p, q + [L], typed);
      SlotStep(op, t, a.tree, q, p, R);
      Dups1Tidy(op, a.tree, p, q + [R], typed);
    } else if p != q {
      var s := At(t, p);
      if s.Bin? {
        OperandsSmaller(op, t, p, q);
        AtTidy(t, p, typed);
        Dups1Tidy(s.op, s, [], [], typed);
        PutTidy(t, p, Dups1(s.op, s, [], []).tree, typed);
      }
      JoinSlotsTidy(op, Dups1Inner(op, t, p, q).tree, p, q, typed);
    }
  }

  lemma {:induction false} Dups2InnerTidy(op: Conn, t: Expr, p: Path, q: Path, typed: bool)
    requires IsOperand(op, t, p) && OnSpine(op, t, q) && p != q && Tidy(t, typed)
    ensures Tidy(Dups2Inner(op, t, p, q).tree, typed)
    decreases Leaves(t), 0
  {
    var s := At(t, p);
    if s.Bin? {
      OperandsSmaller(op, t, p, q);
      var a := Dups2(s.op, s, [], []);
      AtTidy(t, p, typed);
      Dups2Tidy(s.op, s, [], [], typed);
      PutTidy(t, p, a.tree, typed);
      var t1 := Put(t, p, a.tree);
      PutOperand(op, t, p, a.tree);
      SameShapeAt(op, t, t1, p);
      PutTidy(t1, p, Symbol(Absorbing(op)), typed);
    }
  }

  lemma {:induction false} Dups2Tidy(op: Conn, t: Expr, p: Path, q: Path, typed: bool)
    requires OnSpine(op, t, p) && OnSpine(op, t, q) && Tidy(t, typed)
    ensures Tidy(Dups2(op, t, p, q).tree, typed)
    decreases Leaves(t), 1 + SpineNodes(op, At(t, p)) + SpineNodes(op, At(t, q))
  {
    SameShapeRefl(op, t);
    if IsOp(op, At(t, p)) {
      SlotStep(op, t, t, p, q, L);
      var a := Dups2(op, t, p + [L], q);
      Dups2Tidy(op, t, p + [L], q, typed);
      SlotStep(op, t, a.tree, p, q, R);
      Dups2Tidy(op, a.tree, p + [R], q, typed);
    } else if IsOp(op, At(t, q)) {
      SlotStep(op, t, t, q, p, L);
      var a := Dups2(op, t, p, q + [L]);
      Dups2Tidy(op, t, p, q + [L], typed);
      SlotStep(op, t, a.tree, q, p, R);
      var b := Dups2(op, a.tree, p, q + [R]);
      Dups2Tidy(op, a.tree, p, q + [R], typed);
      SameShapeTrans(op, t, a.tree, b.tree);
      SameShapeAt(op, t, b.tree, p);
      SameShapeAt(op, t, b.tree, q);
      Dups2InnerTidy(op, b.tree, p, q, typed);
    } else if p != q {
      Dups2InnerTidy(op, t, p, q, typed);
    }
  }

  lemma {:induction false} EliminateYnTidy(e: Expr, typed: bool)
    requires Tidy(e, typed)
    ensures Tidy(EliminateYn(e), typed)
  {
    if e.Bin? {
      EliminateYnTidy(e.left, typed);
      EliminateYnTidy(e.right, typed);
    }
  }

  lemma {:induction false} EliminateDupsTidy(e: Expr, typed: bool)
    requires Tidy(e, typed)
    ensures Tidy(EliminateDups(e), typed)
    decreases Leaves(e)
  {
    var r := Round(e);
    if e.Bin? {
      Dups1Tidy(e.op, e, [], [], typed);
      Dups2Tidy(e.op, Dups1(e.op, e, [], []).tree, [], [], typed);
    }
    if r.count > 0 {
      RoundShrinks(e);
      EliminateYnTidy(r.tree, typed);
      EliminateDupsTidy(EliminateYn(r.tree), typed);
    }
  }

  // ---- The visibility of a property ----

  /** A missing expression is y. */
  function EvalOption(e: Option<Expr>, env: Env): Tri {
    if e.None? then YES else Eval(e.value, env)
  }

  predicate TidyOption(e: Option<Expr>, typed: bool) {
    e.Some? ==> Tidy(e.value, typed)
  }

  predicate BareTypedOption(e: Option<Expr>) {
    e.Some? ==> BareTyped(e.value)
  }

  /** expr_alloc_and */
  function AllocAnd(a: Option<Expr>, b: Option<Expr>): Option<Expr> {
    if a.None? then b else if b.None? then a else Some(Bin(AND, a.value, b.value))
  }

  function MapOption(f: Expr -> Expr, e: Option<Expr>): Option<Expr> {
    if e.None? then None else Some(f(e.value))
  }

  /** The base dependency menu_finalize gives an entry: its parent's condition and its own. */
  function BaseDependency(parent: Option<Expr>, dep: Option<Expr>): Option<Expr> {
    MapOption(EliminateDups, AllocAnd(parent, MapOption(Transform, dep)))
  }

  /** The visibility of a property: the base dependency of its entry and its own condition,
      simplified; FOO != n is relaxed to FOO unless the symbol is tristate. */
  function PropertyVisibility(base: Option<Expr>, visible: Option<Expr>, relax: bool): Option<Expr> {
    var dep := BaseDependency(base, visible);
    if relax then MapOption(TransBool, dep) else dep
  }

  lemma {:induction false} TransBoolTidy(e: Expr, typed: bool)
    requires Tidy(e, typed)
    ensures Tidy(TransBool(e), typed)
  {
    if e.Bin? {
      TransBoolTidy(e.left, typed);
      TransBoolTidy(e.right, typed);
    }
  }

  /** What menu_finalize stores in entries and properties is tidy. */
  lemma PropertyVisibilityTidy(base: Option<Expr>, visible: Option<Expr>, relax: bool, typed: bool)
    requires TidyOption(base, typed) && (typed ==> BareTypedOption(visible))
    ensures TidyOption(PropertyVisibility(base, visible, relax), typed)
  {
    var dep := AllocAnd(base, MapOption(Transform, visible));
    if visible.Some? {
      TransformNormal(visible.value);
      if typed { TransformBareTyped(visible.value); }
    }
    if dep.Some? {
      EliminateDupsTidy(dep.value, typed);
      TransBoolTidy(EliminateDups(dep.value), typed);
    }
  }

  /** Wherever the conjunction of base dependency and condition is y or n, that is the visibility
      the evaluator reads off the simplified expression; with relax it reads m as y. */
  lemma PropertyVisibilityValue(base: Option<Expr>, visible: Option<Expr>, relax: bool, env: Env)
    requires WellTyped(env) && TidyOption(base, false)
    requires Apply(AND, EvalOption(base, env), EvalOption(visible, env)) != MOD
    ensures var v := EvalOption(PropertyVisibility(base, visible, relax), env);
      (if relax then Promote(v) else v) == Apply(AND, EvalOption(base, env), EvalOption(visible, env))
  {
    var dep := BaseDependency(base, visible);
    if visible.Some? {
      TransformValue(visible.value, env);
    }
    if dep.Some? {
      EliminateDupsClamps(AllocAnd(base, MapOption(Transform, visible)).value, env);
      PropertyVisibilityTidy(base, visible, false, false);
      TransBoolVisibility(dep.value, env);
    }
  }

  // ---- expr_trans_compare ----

  /** expr_trans_compare for a present expression: "e is sym", or "e is not sym". */
  function TransCompare(e: Expr, equal: bool, sym: Sym): Expr
    requires sym in {SymYes, SymMod, SymNo}
  {
    match e
    case Bin(op, a, b) =>
      var x, y := TransCompare(a, true, sym), TransCompare(b, true, sym);
      var r := if sym == SymYes then Bin(op, x, y) else if sym == SymNo then Bin(Dual(op), x, y) else e;
      if equal then r else Not(r)
    case Not(x) => TransCompare(x, !equal, sym)
    case Comp(_, _, _) =>
      if sym == SymMod then (if equal then NoExpr else YesExpr)
      else if (sym == SymYes) == equal then e
      else Not(e)
    case Symbol(s) => Comp(equal, s, sym)
  }

  function TransCompareOption(e: Option<Expr>, equal: bool, sym: Sym): Expr
    requires sym in {SymYes, SymMod, SymNo}
  {
    if e.None? then (if equal then Symbol(sym) else Not(Symbol(sym))) else TransCompare(e.value, equal, sym)
  }

  /** The two-valued reading of e that expr_trans_compare implements: compared with n every symbol
      that is not n counts as y, compared with y every symbol that is not y counts as n, and the
      connectives, negation included, apply to those two values. */
  function Shadow(e: Expr, sym: Sym, env: Env): Tri
    ensures Shadow(e, sym, env) != MOD
  {
    match e
    case Symbol(s) =>
      if (env.str(s) == env.str(sym)) == (sym == SymYes) then YES else NO
    case Not(x) => Negate(Shadow(x, sym, env))
    case Bin(op, a, b) => Apply(op, Shadow(a, sym, env), Shadow(b, sym, env))
    case Comp(_, _, _) => Eval(e, env)
  }

  /** Exactly what expr_trans_compare computes, for every expression and assignment. */
  lemma {:induction false} TransCompareShadow(e: Expr, equal: bool, sym: Sym, env: Env)
    requires WellTyped(env) && sym in {SymYes, SymNo}
    ensures Eval(TransCompare(e, equal, sym), env)
         == if (Shadow(e, sym, env) == env.tri(sym)) == equal then YES else NO
  {
    match e
    case Bin(_, a, b) =>
      TransCompareShadow(a, true, sym, env);
      TransCompareShadow(b, true, sym, env);
    case Not(x) => TransCompareShadow(x, !equal, sym, env);
    case Comp(_, _, _) =>
    case Symbol(_) =>
  }

  /** No negated part of e has the value m. */
  predicate NegationsDefinite(e: Expr, env: Env) {
    match e
    case Not(x) => Eval(x, env) != MOD && NegationsDefinite(x, env)
    case Bin(_, a, b) => NegationsDefinite(a, env) && NegationsDefinite(b, env)
    case _ => true
  }

  /** Comparing s with n by name tells whether its value is n.  It always does for a symbol that is
      boolean or tristate. */
  predicate Reads(s: Sym, env: Env) {
    env.str(s) == "n" <==> env.tri(s) == NO
  }

  predicate SymbolsRead(e: Expr, env: Env) {
    match e
    case Symbol(s) => Reads(s, env)
    case Not(x) => SymbolsRead(x, env)
    case Bin(_, a, b) => SymbolsRead(a, env) && SymbolsRead(b, env)
    case Comp(_, _, _) => true
  }

  /** Where nothing negated is m, and names can be relied on, the two-valued reading says exactly
      whether e is visible. */
  lemma {:induction false} ShadowExact(e: Expr, env: Env)
    requires WellTyped(env) && SymbolsRead(e, env) && NegationsDefinite(e, env)
    ensures Shadow(e, SymNo, env) == Promote(Eval(e, env))
  {
    match e
    case Symbol(_) =>
    case Not(x) => ShadowExact(x, env);
    case Bin(_, a, b) =>
      ShadowExact(a, env);
      ShadowExact(b, env);
    case Comp(_, _, _) =>
  }

  /** For a symbol and a negated symbol the reading is exact precisely then. */
  lemma ShadowExactIff(s: Sym, env: Env)
    requires WellTyped(env)
    ensures Shadow(Symbol(s), SymNo, env) == Promote(Eval(Symbol(s), env)) <==> Reads(s, env)
    ensures Shadow(Not(Symbol(s)), SymNo, env) == Promote(Eval(Not(Symbol(s)), env))
       <==> (env.str(s) == "n" <==> env.tri(s) != YES)
    ensures IsTristateLike(s) ==>
              (Shadow(Not(Symbol(s)), SymNo, env) == Promote(Eval(Not(Symbol(s)), env)) <==> env.tri(s) != MOD)
  {
    if IsTristateLike(s) { ComparedStrings(s, env); }
    var read, value := Shadow(Symbol(s), SymNo, env), Eval(Symbol(s), env);
    assert read == (if env.str(s) == "n" then NO else YES) && value == env.tri(s);
    assert Shadow(Not(Symbol(s)), SymNo, env) == Negate(read) && Eval(Not(Symbol(s)), env) == Negate(value);
  }

  /** No part of a normal form that is n counts as y: a symbol that is n is named n, and a negated
      one that is named n is not y. */
  predicate NotOverstated(e: Expr, env: Env) {
    match e
    case Symbol(s) => env.tri(s) == NO ==> env.str(s) == "n"
    case Not(x) => x.Symbol? && env.str(x.sym) == "n" ==> env.tri(x.sym) != YES
    case Bin(_, a, b) => NotOverstated(a, env) && NotOverstated(b, env)
    case Comp(_, _, _) => true
  }

  /** No part of a normal form that is not n counts as n: a symbol that is named n is n, and a
      negated one that is not y is named n. */
  predicate NotUnderstated(e: Expr, env: Env) {
    match e
    case Symbol(s) => env.str(s) == "n" ==> env.tri(s) == NO
    case Not(x) => x.Symbol? && env.tri(x.sym) != YES ==> env.str(x.sym) == "n"
    case Bin(_, a, b) => NotUnderstated(a, env) && NotUnderstated(b, env)
    case Comp(_, _, _) => true
  }

  /** Then the reading does not claim too much ... */
  lemma {:induction false} ShadowBelow(e: Expr, env: Env)
    requires WellTyped(env) && Normal(e) && NotOverstated(e, env)
    ensures Shadow(e, SymNo, env) <= Promote(Eval(e, env))
  {
    match e
    case Symbol(_) =>
    case Not(x) => ShadowExactIff(x.sym, env);
    case Bin(_, a, b) =>
      ShadowBelow(a, env);
      ShadowBelow(b, env);
    case Comp(_, _, _) =>
  }

  /** ... or not too little. */
  lemma {:induction false} ShadowAbove(e: Expr, env: Env)
    requires WellTyped(env) && Normal(e) && NotUnderstated(e, env)
    ensures Promote(Eval(e, env)) <= Shadow(e, SymNo, env)
  {
    match e
    case Symbol(_) =>
    case Not(x) => ShadowExactIff(x.sym, env);
    case Bin(_, a, b) =>
      ShadowAbove(a, env);
      ShadowAbove(b, env);
    case Comp(_, _, _) =>
  }

  /** Where all bare symbols are boolean or tristate, only a negated m can be misread. */
  lemma {:induction false} TypedStated(e: Expr, env: Env)
    requires WellTyped(env) && Normal(e) && BareTyped(e)
    ensures NotOverstated(e, env) && SymbolsRead(e, env)
    ensures NotUnderstated(e, env) <==> NegationsDefinite(e, env)
  {
    match e
    case Symbol(s) =>
      if IsTristateLike(s) { ComparedStrings(s, env); }
    case Not(x) =>
      if IsTristateLike(x.sym) { ComparedStrings(x.sym, env); }
    case Bin(_, a, b) =>
      TypedStated(a, env);
      TypedStated(b, env);
    case Comp(_, _, _) =>
  }

  // ---- The adoption test ----

  /** expr_contains_symbol */
  predicate ContainsSymbol(e: Expr, s: Sym) {
    match e
    case Bin(_, a, b) => ContainsSymbol(a, s) || ContainsSymbol(b, s)
    case Symbol(a) => a == s
    case Comp(_, a, b) => a == s || b == s
    case Not(x) => ContainsSymbol(x, s)
  }

  /** expr_depends_symbol */
  predicate DependsOnSymbol(e: Expr, s: Sym) {
    match e
    case Bin(AND, a, b) => DependsOnSymbol(a, s) || DependsOnSymbol(b, s)
    case Symbol(a) => a == s
    case Comp(true, a, b) => a == s && (b == SymYes || b == SymMod)
    case Comp(false, a, b) => a == s && b == SymNo
    case _ => false
  }

  /** A symbol is set if it is not n: by value, or, for one that is not boolean or tristate, by name. */
  predicate IsSet(s: Sym, env: Env) {
    env.tri(s) != NO || (!IsTristateLike(s) && env.str(s) != "n")
  }

  /** A dependency that depends on a symbol is visible only if the symbol is set. */
  lemma {:induction false} DependsOnSymbolSound(e: Expr, s: Sym, env: Env)
    requires WellTyped(env) && DependsOnSymbol(e, s)
    ensures Eval(e, env) != NO ==> IsSet(s, env)
    ensures IsTristateLike(s) ==> Eval(e, env) <= Promote(env.tri(s))
  {
    if IsTristateLike(s) { ComparedStrings(s, env); }
    match e
    case Bin(_, a, b) =>
      if DependsOnSymbol(a, s) { DependsOnSymbolSound(a, s, env); } else { DependsOnSymbolSound(b, s, env); }
    case _ =>
  }

  /** "e is not n", simplified. */
  function Visible(e: Option<Expr>): Expr {
    EliminateDups(Transform(TransCompareOption(e, false, SymNo)))
  }

  /** The condition under which menu_finalize makes an entry with dependency dep a child of the
      entry for sym with prompt condition prompt. */
  predicate Adopts(sym: Sym, prompt: Option<Expr>, dep: Option<Expr>) {
    dep.Some? && ContainsSymbol(dep.value, sym) &&
    (DependsOnSymbol(dep.value, sym) || EliminateEq(Visible(dep), Visible(prompt)).snd == YesExpr)
  }

  function ShadowOption(e: Option<Expr>, env: Env): Tri {
    if e.None? then YES else Shadow(e.value, SymNo, env)
  }

  /** The simplification of "e is not n" is exact: its value is never m. */
  lemma VisibleValue(e: Option<Expr>, env: Env)
    requires WellTyped(env)
    ensures Eval(Visible(e), env) == ShadowOption(e, env)
  {
    var t := TransCompareOption(e, false, SymNo);
    if e.Some? {
      TransCompareShadow(e.value, false, SymNo, env);
    }
    TransformValue(t, env);
    EliminateDupsClamps(Transform(t), env);
  }

  /** What the engine itself establishes: in every assignment, for the two-valued readings, the
      adopted entry's condition implies the prompt's. */
  lemma AdoptionShadow(prompt: Option<Expr>, dep: Option<Expr>, env: Env)
    requires WellTyped(env) && EliminateEq(Visible(dep), Visible(prompt)).snd == YesExpr
    ensures ShadowOption(dep, env) <= ShadowOption(prompt, env)
  {
    VisibleValue(dep, env);
    VisibleValue(prompt, env);
    EliminateEqMonotone(Visible(dep), Visible(prompt));
  }

  /** The adoption test is sound: an adopted entry is visible only where its new parent's symbol
      is set or its prompt visible, in every assignment in which expr_trans_compare overstates no
      part of the prompt's condition and understates no part of the entry's. */
  lemma AdoptionSound(sym: Sym, prompt: Option<Expr>, dep: Option<Expr>, env: Env)
    requires WellTyped(env) && TidyOption(prompt, false) && TidyOption(dep, false)
    requires Adopts(sym, prompt, dep)
    requires prompt.Some? ==> NotOverstated(prompt.value, env)
    requires NotUnderstated(dep.value, env)
    requires EvalOption(dep, env) != NO
    ensures IsSet(sym, env) || EvalOption(prompt, env) != NO
  {
    if DependsOnSymbol(dep.value, sym) {
      DependsOnSymbolSound(dep.value, sym, env);
    } else {
      AdoptionShadow(prompt, dep, env);
      ShadowAbove(dep.value, env);
      if prompt.Some? {
        ShadowBelow(prompt.value, env);
      }
    }
  }

  /** With boolean and tristate symbols only, it is sound in every assignment in which no negated
      part of the entry's own dependency is m. */
  lemma TypedAdoptionSound(sym: Sym, prompt: Option<Expr>, dep: Option<Expr>, env: Env)
    requires WellTyped(env) && IsTristateLike(sym)
    requires TidyOption(prompt, true) && TidyOption(dep, true)
    requires Adopts(sym, prompt, dep)
    requires NegationsDefinite(dep.value, env)
    requires EvalOption(dep, env) != NO
    ensures env.tri(sym) != NO || EvalOption(prompt, env) != NO
  {
    TypedStated(dep.value, env);
    if prompt.Some? {
      TypedStated(prompt.value, env);
    }
    AdoptionSound(sym, prompt, dep, env);
  }
}
