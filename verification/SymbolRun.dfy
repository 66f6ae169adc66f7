/**
 sym_calc_value of package/config/symbol.c as a function on the memory it works on, for any table: also
 for those in which the result depends on where it begins.
 */
module SymbolRun {
  import opened Expressions
  import opened ExprTransform
  import opened SymbolGraph
  import opened SymbolValues

  /** SYMBOL_VALID, sym->curr, sym->visible and sym->rev_dep.tri */
  datatype Memory = Memory(valid: set<Sym>, curr: map<Sym, Value>, visible: map<Sym, Tri>, revTri: map<Sym, Tri>)

  const Blank := Memory({}, map[], map[], map[])

  /** What is calculated, and the memory afterwards. */
  datatype Ran<T> = Ran(result: T, memory: Memory)

  function CurrOf(m: Memory, s: Sym): Value {
    match s
    case SymYes => Value(YES, "y", None)
    case SymMod => Value(MOD, "m", None)
    case SymNo => Value(NO, "n", None)
    case _ => if s in m.curr then m.curr[s] else Value(NO, "", None)
  }

  function TriOf(tris: map<Sym, Tri>, s: Sym): Tri {
    if s in tris then tris[s] else NO
  }

  function SetCurr(m: Memory, s: Sym, v: Value): Memory {
    m.(curr := m.curr[s := v])
  }

  /** sym_calc_value, nested at most n deep */
  function RunValue(u: Setup, s: Sym, m: Memory, n: nat): Memory
    decreases n, 0
  {
    if s in {SymYes, SymMod, SymNo} || s in m.valid || n == 0 then m
    else
      var m0 := m.(valid := m.valid + {s});
      if s.Type() == UnknownType then SetCurr(m0, s, Value(NO, u.names(s), None))
      else
        var m1 := RunVisibility(u, s, m0, n - 1);
        if IsTristateLike(s) then
          var r := RunTri(u, s, SetCurr(m1, s, Value(NO, "n", None)), n - 1);
          var m2 := SetCurr(r.memory, s, Value(r.result, "n", None));
          if IsChoice(u.g, s) && r.result == YES then RunChoice(u, s, m2, n - 1) else m2
        else
          var r := RunStr(u, s, SetCurr(m1, s, Value(NO, "", None)), n - 1);
          SetCurr(r.memory, s, Value(NO, r.result, None))
  }

  /** expr_calc_value */
  function RunExpr(u: Setup, e: Expr, m: Memory, n: nat): Ran<Tri>
    decreases n, 1, e
  {
    match e
    case Symbol(s) =>
      var m1 := RunValue(u, s, m, n);
      Ran(CurrOf(m1, s).tri, m1)
    case Not(x) =>
      var r := RunExpr(u, x, m, n);
      Ran(Negate(r.result), r.memory)
    case Bin(op, a, b) =>
      var r1 := RunExpr(u, a, m, n);
      var r2 := RunExpr(u, b, r1.memory, n);
      Ran(Apply(op, r1.result, r2.result), r2.memory)
    case Comp(eq, a, b) =>
      var m1 := RunValue(u, a, m, n);
      var m2 := RunValue(u, b, m1, n);
      Ran(if (StringOf(a, CurrOf(m2, a)) == StringOf(b, CurrOf(m2, b))) == eq then YES else NO, m2)
  }

  function RunOption(u: Setup, e: Option<Expr>, m: Memory, n: nat): Ran<Tri>
    decreases n, 2
  {
    if e.None? then Ran(YES, m) else RunExpr(u, e.value, m, n)
  }

  /** The loop of sym_calc_visibility. */
  function RunPrompts(u: Setup, props: seq<Property>, tri: Tri, m: Memory, n: nat): Ran<Tri>
    decreases n, 3, |props|
  {
    if props == [] then Ran(tri, m)
    else if props[0].Prompt? then
      var r := RunOption(u, props[0].visible, m, n);
      RunPrompts(u, props[1..], Apply(OR, tri, r.result), r.memory, n)
    else RunPrompts(u, props[1..], tri, m, n)
  }

  /** sym_calc_visibility */
  function RunVisibility(u: Setup, s: Sym, m: Memory, n: nat): Memory
    decreases n, 4
  {
    var r := RunPrompts(u, Def(u.g, s).props, NO, m, n);
    var shown := if s.Type() != TristateType || u.modules == NO then Promote(r.result) else r.result;
    var m1 := r.memory.(visible := r.memory.visible[s := shown]);
    if IsMember(u.g, s) then m1
    else
      var rev := if Def(u.g, s).revDep.None? then Ran(NO, m1) else RunOption(u, Def(u.g, s).revDep, m1, n);
      var tri := if EffectiveType(s, u.modules) == BooleanType then Promote(rev.result) else rev.result;
      rev.memory.(revTri := rev.memory.revTri[s := tri])
  }

  /** sym_get_default_prop */
  function RunDefault(u: Setup, props: seq<Property>, m: Memory, n: nat): Ran<Option<Expr>>
    decreases n, 3, |props|
  {
    if props == [] then Ran(None, m)
    else if props[0].Default? then
      var r := RunOption(u, props[0].visible, m, n);
      if r.result != NO then Ran(Some(props[0].value), r.memory) else RunDefault(u, props[1..], r.memory, n)
    else RunDefault(u, props[1..], m, n)
  }

  function RunDefaultTri(u: Setup, s: Sym, m: Memory, n: nat): Ran<Tri>
    decreases n, 4
  {
    if IsChoice(u.g, s) then Ran(NO, m)
    else
      var d := RunDefault(u, Def(u.g, s).props, m, n);
      if d.result.None? then Ran(NO, d.memory) else RunOption(u, d.result, d.memory, n)
  }

  /** The tristate case of sym_calc_value. */
  function RunTri(u: Setup, s: Sym, m: Memory, n: nat): Ran<Tri>
    decreases n, 5
  {
    var vis, rev := TriOf(m.visible, s), TriOf(m.revTri, s);
    if IsMember(u.g, s) && vis == YES then
      Ran(if CurrOf(m, Def(u.g, s).memberOf.value).pick == Some(s) then YES else NO, m)
    else
      var r := if Apply(OR, vis, rev) != NO && s in u.user then Ran(u.user[s].tri, m) else RunDefaultTri(u, s, m, n);
      var vis', rev' := TriOf(r.memory.visible, s), TriOf(r.memory.revTri, s);
      var tri := if Apply(OR, vis, rev) != NO then Apply(OR, Apply(AND, r.result, vis'), rev') else r.result;
      Ran(if EffectiveType(s, u.modules) == BooleanType then Promote(tri) else tri, r.memory)
  }

  /** The string, hex and int case of sym_calc_value. */
  function RunStr(u: Setup, s: Sym, m: Memory, n: nat): Ran<string>
    decreases n, 5
  {
    if TriOf(m.visible, s) != NO && s in u.user then Ran(u.user[s].str, m)
    else
      var d := RunDefault(u, Def(u.g, s).props, m, n);
      if d.result.Some? && d.result.value.Symbol? then
        var m1 := RunValue(u, d.result.value.sym, d.memory, n);
        Ran(CurrOf(m1, d.result.value.sym).str, m1)
      else Ran("", d.memory)
  }

  // ---- Choices ----

  /** The first of these symbols that is visible, each calculated in turn. */
  function RunFirst(u: Setup, ss: seq<Sym>, m: Memory, n: nat): Ran<Option<Sym>>
    decreases n, 5, |ss|
  {
    if ss == [] then Ran(None, m)
    else
      var m1 := RunVisibility(u, ss[0], m, n);
      if TriOf(m1.visible, ss[0]) != NO then Ran(Some(ss[0]), m1) else RunFirst(u, ss[1..], m1, n)
  }

  /** The symbol of the first default that applies. */
  function RunChoiceDefault(u: Setup, props: seq<Property>, m: Memory, n: nat): Ran<Option<Sym>>
    decreases n, 6, |props|
  {
    if props == [] then Ran(None, m)
    else if props[0].Default? && props[0].value.Symbol? then
      var r := RunOption(u, props[0].visible, m, n);
      if r.result == NO then RunChoiceDefault(u, props[1..], r.memory, n)
      else
        var f := RunFirst(u, [props[0].value.sym], r.memory, n);
        if f.result.Some? then f else RunChoiceDefault(u, props[1..], f.memory, n)
    else RunChoiceDefault(u, props[1..], m, n)
  }

  /** sym_calc_choice, and the assignment of its result */
  function RunChoice(u: Setup, c: Sym, m: Memory, n: nat): Memory
    decreases n, 7
  {
    var r := RunFirst(u, if c in u.picks then [u.picks[c]] else [], m, n);
    var r1 := if r.result.Some? then r else RunChoiceDefault(u, Def(u.g, c).props, r.memory, n);
    var r2 := if r1.result.Some? then r1 else RunFirst(u, Def(u.g, c).members, r1.memory, n);
    SetCurr(r2.memory, c, Value(if r2.result.None? then NO else YES, "n", r2.result))
  }
}
