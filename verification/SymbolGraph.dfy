/**
 Symbols with their properties (package/config/expr.h, struct symbol and struct property), and the
 dependencies between them.
 */
module SymbolGraph {
  import opened Expressions
  import opened Graphs

  /** P_PROMPT, P_DEFAULT, P_SELECT, P_CHOICE and P_RANGE properties. */
  datatype Property =
    | Prompt(visible: Option<Expr>)
    | Default(visible: Option<Expr>, value: Expr)
    | Select(visible: Option<Expr>)
    | Choice(visible: Option<Expr>)
    | Range(visible: Option<Expr>)

  /** The definition of a symbol; a choice has a list of members, and these know their choice. */
  datatype SymDef = SymDef(props: seq<Property>, revDep: Option<Expr>, isChoice: bool, members: seq<Sym>,
                           memberOf: Option<Sym>)

  /** The symbol table.  Symbols without an entry, such as constants, have no properties. */
  type Table = map<Sym, SymDef>

  const NoDef := SymDef([], None, false, [], None)

  function Def(g: Table, s: Sym): SymDef {
    if s in g then g[s] else NoDef
  }

  function ExprSyms(e: Expr): seq<Sym> {
    match e
    case Symbol(s) => [s]
    case Not(x) => ExprSyms(x)
    case Bin(_, a, b) => ExprSyms(a) + ExprSyms(b)
    case Comp(_, a, b) => [a, b]
  }

  function OptionSyms(e: Option<Expr>): seq<Sym> {
    if e.None? then [] else ExprSyms(e.value)
  }

  /** The symbols that sym_check_deps looks at for one property. */
  function PropSyms(p: Property, isChoice: bool): seq<Sym> {
    if p.Choice? || p.Select? then []
    else OptionSyms(p.visible) + if p.Default? && !isChoice then ExprSyms(p.value) else []
  }

  function PropsSyms(ps: seq<Property>, isChoice: bool): seq<Sym> {
    if ps == [] then [] else PropSyms(ps[0], isChoice) + PropsSyms(ps[1..], isChoice)
  }

  lemma {:induction false} PropsSymsSplit(ps: seq<Property>, k: nat, isChoice: bool)
    requires k < |ps|
    ensures PropsSyms(ps[..k + 1], isChoice) == PropsSyms(ps[..k], isChoice) + PropSyms(ps[k], isChoice)
    ensures forall t :: t in PropSyms(ps[k], isChoice) ==> t in PropsSyms(ps, isChoice)
  {
    if k == 0 {
      assert ps[..1] == [ps[0]] && ps[..1][1..] == [];
    } else {
      assert ps[..k + 1][1..] == ps[1..][..k] && ps[..k][1..] == ps[1..][..k - 1];
      PropsSymsSplit(ps[1..], k - 1, isChoice);
    }
  }

  /** The dependencies of a symbol that sym_check_deps follows. */
  function Deps(g: Table, s: Sym): seq<Sym> {
    OptionSyms(Def(g, s).revDep) + PropsSyms(Def(g, s).props, Def(g, s).isChoice)
  }

  function CheckGraph(g: Table): Graph {
    map s | s in g :: Deps(g, s)
  }

  lemma CheckGraphNext(g: Table, s: Sym)
    ensures Next(CheckGraph(g), s) == Deps(g, s)
  {
  }

  /** The symbols in the conditions of the prompts. */
  function PromptSyms(ps: seq<Property>): seq<Sym> {
    if ps == [] then [] else (if ps[0].Prompt? then OptionSyms(ps[0].visible) else []) + PromptSyms(ps[1..])
  }

  /** To calculate a choice, sym_calc_choice needs the visibility of its members, which depends on
      the choice itself and on these. */
  function MembersSyms(g: Table, c: Sym, ms: seq<Sym>): seq<Sym> {
    if ms == [] then [] else Without(PromptSyms(Def(g, ms[0]).props), c) + MembersSyms(g, c, ms[1..])
  }

  function Without(ss: seq<Sym>, c: Sym): seq<Sym> {
    if ss == [] then [] else (if ss[0] == c then [] else [ss[0]]) + Without(ss[1..], c)
  }

  /** The symbols whose values sym_calc_value needs for that of s. */
  function EvalDeps(g: Table, s: Sym): seq<Sym> {
    Deps(g, s) + MembersSyms(g, s, Def(g, s).members) + if Def(g, s).memberOf.Some? then [Def(g, s).memberOf.value]
      else []
  }

  function EvalGraph(g: Table): Graph {
    map s | s in g :: EvalDeps(g, s)
  }

  lemma EvalGraphNext(g: Table, s: Sym)
    ensures Next(EvalGraph(g), s) == EvalDeps(g, s)
  {
  }

  lemma {:induction false} PromptSymsAt(ps: seq<Property>, i: nat, t: Sym)
    requires i < |ps| && ps[i].Prompt? && t in OptionSyms(ps[i].visible)
    ensures t in PromptSyms(ps)
  {
    if i > 0 {
      PromptSymsAt(ps[1..], i - 1, t);
    }
  }

  lemma {:induction false} WithoutKeeps(ss: seq<Sym>, c: Sym, t: Sym)
    requires t in ss && t != c
    ensures t in Without(ss, c)
  {
    if ss[0] != t {
      WithoutKeeps(ss[1..], c, t);
    }
  }

  lemma {:induction false} MembersSymsAt(g: Table, c: Sym, ms: seq<Sym>, m: Sym, t: Sym)
    requires m in ms && t in PromptSyms(Def(g, m).props) && t != c
    ensures t in MembersSyms(g, c, ms)
  {
    if ms[0] == m {
      WithoutKeeps(PromptSyms(Def(g, m).props), c, t);
    } else {
      MembersSymsAt(g, c, ms[1..], m, t);
    }
  }

  /** A symbol in the condition of a prompt of a member, other than the choice. */
  lemma MemberPromptDep(g: Table, c: Sym, m: Sym, i: nat, t: Sym)
    requires m in Def(g, c).members && i < |Def(g, m).props| && Def(g, m).props[i].Prompt?
    requires t in OptionSyms(Def(g, m).props[i].visible) && t != c
    ensures t in EvalDeps(g, c)
  {
    PromptSymsAt(Def(g, m).props, i, t);
    MembersSymsAt(g, c, Def(g, c).members, m, t);
  }

  /** The symbols of a symbol with one prompt and nothing else. */
  lemma OnePromptSyms(e: Option<Expr>)
    ensures PropsSyms([Prompt(e)], false) == OptionSyms(e) && PropsSyms([Prompt(e)], true) == OptionSyms(e)
    ensures PromptSyms([Prompt(e)]) == OptionSyms(e)
  {
    var props := [Prompt(e)];
    assert props[1..] == [];
    assert PropSyms(props[0], false) == OptionSyms(e) && PropSyms(props[0], true) == OptionSyms(e);
  }
}
