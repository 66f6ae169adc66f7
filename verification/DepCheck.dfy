/**
 The dependency check: sym_check_deps and sym_check_expr_deps of package/config/symbol.c, and the
 loop of conf_parse (package/config/zconf.y) that runs it over all symbols.
 */
module DepCheck {
  import opened Expressions
  import opened Graphs
  import opened SymbolGraph
  import ExprEquality

  /** Every symbol in stack depends on s. */
  ghost predicate LeadTo(d: Graph, stack: set<Sym>, s: Sym) {
    forall p :: p in stack ==> Leads(d, p, s)
  }

  ghost predicate AllTame(d: Graph, ss: set<Sym>) {
    forall s :: s in ss ==> Tame(d, s)
  }

  class Checker {
    const g: Table
    /** The symbols that have SYMBOL_CHECK, SYMBOL_CHECKED and SYMBOL_CHECK_DONE. */
    var check: set<Sym>
    var checked: set<Sym>
    var done: set<Sym>

    ghost function D(): Graph {
      CheckGraph(g)
    }

    constructor (g: Table)
      ensures this.g == g && check == {} && checked == {} && done == {}
    {
      this.g := g;
      check, checked, done := {}, {}, {};
    }

    /** Result of a check of the symbols ts: a symbol of a cycle that can be reached from one of
        them; or nothing, and then no cycle can be reached from any symbol looked at. */
    ghost predicate Answers(ts: seq<Sym>, before: set<Sym>, r: Option<Sym>)
      reads this
    {
      match r
      case Some(x) => Leads(D(), x, x) && exists t :: t in ts && (t == x || Leads(D(), t, x))
      case None => AllTame(D(), done) ==>
        && (forall t :: t in ts ==> Tame(D(), t))
        && AllTame(D(), checked - before)
    }

    /** sym_check_expr_deps */
    method CheckExprDeps(e: Option<Expr>) returns (r: Option<Sym>)
      requires forall t :: t in OptionSyms(e) ==> LeadTo(D(), check, t)
      modifies this`check, this`checked
      ensures check == old(check) && old(checked) <= checked
      ensures Answers(OptionSyms(e), old(checked), r)
      decreases g.Keys - check, 1, if e.None? then 0 else ExprEquality.Size(e.value)
    {
      r := None;
      if e.None? {
        return;
      }
      match e.value
      case Bin(_, a, b) =>
        r := CheckExprDeps(Some(a));
        if r.Some? {
          return;
        }
        r := CheckExprDeps(Some(b));
      case Not(x) =>
        r := CheckExprDeps(Some(x));
      case Comp(_, a, b) =>
        r := CheckDeps(a);
        if r.Some? {
          return;
        }
        r := CheckDeps(b);
      case Symbol(s) =>
        r := CheckDeps(s);
    }

    /** The symbols s depends on are led to by s and by everything that leads to s. */
    lemma LeadOn(s: Sym, before: set<Sym>)
      requires check == before + {s} && LeadTo(D(), before, s)
      ensures forall t :: t in Deps(g, s) ==> LeadTo(D(), check, t)
    {
      CheckGraphNext(g, s);
      forall t, p | t in Deps(g, s) && p in check ensures Leads(D(), p, t) {
        if p == s {
          LeadsEdge(D(), s, t);
        } else {
          LeadsThen(D(), p, s, t);
        }
      }
    }

    /** A cycle found through a dependency is found through the symbol. */
    lemma FoundBelow(s: Sym, x: Sym, t: Sym)
      requires Leads(D(), x, x) && t in Deps(g, s) && (t == x || Leads(D(), t, x))
      ensures Leads(D(), s, x)
    {
      CheckGraphNext(g, s);
      if t == x {
        LeadsEdge(D(), s, t);
      } else {
        LeadsBefore(D(), s, t, x);
      }
    }

    /** sym_check_deps */
    method CheckDeps(s: Sym) returns (r: Option<Sym>)
      requires LeadTo(D(), check, s)
      modifies this`check, this`checked
      ensures check == old(check) && old(checked) <= checked
      ensures Answers([s], old(checked), r)
      ensures s in old(check) + done || s in checked
      decreases g.Keys - check, 0
    {
      if s in done {
        return None;
      }
      if s in check {
        return Some(s);
      }
      ghost var stack := check;
      var def := Def(g, s);
      check, checked := check + {s}, checked + {s};
      LeadOn(s, stack);
      r := None;
      if def.revDep.Some? {
        r := CheckOptionOf(s, def.revDep, stack);
      }
      var i := 0;
      while r.None? && i < |def.props|
        invariant 0 <= i <= |def.props|
        invariant check == stack + {s} && old(checked) + {s} <= checked
        invariant r.Some? ==> Leads(D(), r.value, r.value) && Leads(D(), s, r.value)
        invariant r.None? && AllTame(D(), done) ==>
          && (forall t :: t in OptionSyms(def.revDep) + PropsSyms(def.props[..i], def.isChoice) ==> Tame(D(), t))
          && (forall c :: c in checked - old(checked) ==> c == s || Tame(D(), c))
      {
        var prop := def.props[i];
        PropsSymsSplit(def.props, i, def.isChoice);
        r := CheckProp(s, prop, def.isChoice, stack);
        i := i + 1;
      }
      check := check - {s};
      assert check == stack;
      if r.None? {
        assert def.props[..|def.props|] == def.props;
        if AllTame(D(), done) {
          CheckGraphNext(g, s);
          TameFromDeps(D(), s);
        }
      }
    }

    /** One round of its loop. */
    method CheckProp(s: Sym, prop: Property, isChoice: bool, ghost stack: set<Sym>) returns (r: Option<Sym>)
      requires s !in stack && check == stack + {s} && LeadTo(D(), stack, s)
      requires forall t :: t in PropSyms(prop, isChoice) ==> t in Deps(g, s)
      modifies this`check, this`checked
      ensures check == old(check) && old(checked) <= checked
      ensures r.Some? ==> Leads(D(), r.value, r.value) && Leads(D(), s, r.value)
      ensures r.None? && AllTame(D(), done) ==>
        && (forall t :: t in PropSyms(prop, isChoice) ==> Tame(D(), t))
        && AllTame(D(), checked - old(checked))
      decreases g.Keys - check, 3
    {
      r := None;
      if !prop.Choice? && !prop.Select? {
        r := CheckOptionOf(s, prop.visible, stack);
        if r.None? && prop.Default? && !isChoice {
          r := CheckOptionOf(s, Some(prop.value), stack);
        }
      }
    }

    /** One call of sym_check_expr_deps from sym_check_deps. */
    method CheckOptionOf(s: Sym, e: Option<Expr>, ghost stack: set<Sym>) returns (r: Option<Sym>)
      requires s !in stack && check == stack + {s} && LeadTo(D(), stack, s)
      requires forall t :: t in OptionSyms(e) ==> t in Deps(g, s)
      modifies this`check, this`checked
      ensures check == old(check) && old(checked) <= checked
      ensures r.Some? ==> Leads(D(), r.value, r.value) && Leads(D(), s, r.value)
      ensures r.None? && AllTame(D(), done) ==>
        && (forall t :: t in OptionSyms(e) ==> Tame(D(), t))
        && AllTame(D(), checked - old(checked))
      decreases g.Keys - check, 2
    {
      LeadOn(s, stack);
      r := CheckExprDeps(e);
      if r.Some? {
        ghost var t :| t in OptionSyms(e) && (t == r.value || Leads(D(), t, r.value));
        FoundBelow(s, r.value, t);
      }
    }

    /** The check of a single symbol: it finds a symbol of a cycle exactly if some cycle can be
        reached, and leaves no symbol marked. */
    method CheckOne(s: Sym) returns (r: Option<Sym>)
      requires check == {} && done == {}
      modifies this`check, this`checked
      ensures r.Some? <==> CycleReachable(D(), s)
      ensures r.Some? ==> Leads(D(), r.value, r.value) && (s == r.value || Leads(D(), s, r.value))
      ensures check == {}
    {
      r := CheckDeps(s);
      if r.None? {
        assert s in [s];
        TameNoCycle(D(), s);
      }
    }

    /** The loop at the end of conf_parse, over the symbols in hash order; it skips symbols that an
        earlier check has looked at, and marks everything it does not complain about as done. */
    method CheckAll(order: seq<Sym>) returns (reported: bool)
      requires forall s :: s in g ==> s in order
      requires check == {} && checked == {} && done == {}
      modifies this
      ensures reported <==> exists x: Sym :: Leads(D(), x, x)
      ensures reported <==> !Acyclic(D())
      ensures check == {}
    {
      reported := false;
      for i := 0 to |order|
        invariant check == {}
        invariant reported ==> exists x: Sym :: Leads(D(), x, x)
        invariant !reported ==>
          && AllTame(D(), checked + done)
          && (forall s :: s in order[..i] ==> Tame(D(), s))
      {
        var sym := order[i];
        var r: Option<Sym> := None;
        if sym !in checked {
          r := CheckDeps(sym);
        }
        if r.Some? {
          reported := true;
        } else {
          done := done + {sym};
          assert sym in [sym];
        }
        assert order[..i + 1] == order[..i] + [sym];
      }
      if !reported {
        assert order[..|order|] == order;
        AcyclicFromTable(D());
      }
      AcyclicNoCycle(D());
    }
  }
}
