/**
 The evaluator of package/config/symbol.c as it runs: values, visibilities and select bounds are
 cached in the symbols under SYMBOL_VALID.  Every method is proved against the plain recursion of
 `SymbolValues`.
 */
module SymbolEval {
  import opened Expressions
  import opened ExprEquality
  import opened SymbolGraph
  import opened SymbolValues
  import opened SymbolChoice
  import opened SymbolSetting
  import opened SymbolReadBack

  /** sym->rev_dep.tri, which is n until it is calculated */
  function RevOf(revTri: map<Sym, Tri>, s: Sym): Tri {
    if s in revTri then revTri[s] else NO
  }

  /** The cached value and select bound of s are what the recursion gives; a symbol without a type has
      no bounds. */
  ghost predicate ValueRight(u: Setup, s: Sym, curr: map<Sym, Value>, revTri: map<Sym, Tri>)
    requires Valid(u)
  {
    s in curr && curr[s] == SymValue(u, s) && (s.Type() != UnknownType ==> RevOf(revTri, s) == SelectBound(u, s))
  }

  ghost predicate ValuesRight(u: Setup, ss: set<Sym>, curr: map<Sym, Value>, revTri: map<Sym, Tri>)
    requires Valid(u)
  {
    forall s :: s in ss ==> ValueRight(u, s, curr, revTri)
  }

  ghost predicate VisibleRight(u: Setup, s: Sym, visible: map<Sym, Tri>)
    requires Valid(u)
  {
    s.Type() != UnknownType ==> s in visible && visible[s] == Visibility(u, s)
  }

  ghost predicate VisiblesRight(u: Setup, ss: set<Sym>, visible: map<Sym, Tri>)
    requires Valid(u)
  {
    forall s :: s in ss ==> VisibleRight(u, s, visible)
  }

  /** Writing the data of a symbol that is not among ss. */
  lemma ValuesElsewhere(u: Setup, ss: set<Sym>, s: Sym, curr: map<Sym, Value>, revTri: map<Sym, Tri>, v: Value, r: Tri)
    requires Valid(u) && ValuesRight(u, ss, curr, revTri) && s !in ss
    ensures ValuesRight(u, ss, curr[s := v], revTri) && ValuesRight(u, ss, curr, revTri[s := r])
  {
    forall x | x in ss ensures ValueRight(u, x, curr[s := v], revTri) && ValueRight(u, x, curr, revTri[s := r]) {
      assert ValueRight(u, x, curr, revTri);
    }
  }

  /** Writing the right visibility of a symbol. */
  lemma VisiblesAfter(u: Setup, ss: set<Sym>, s: Sym, visible: map<Sym, Tri>, v: Tri)
    requires Valid(u) && VisiblesRight(u, ss - {s}, visible) && v == Visibility(u, s)
    ensures VisiblesRight(u, ss, visible[s := v])
  {
    forall x | x in ss ensures VisibleRight(u, x, visible[s := v]) {
      assert x == s || VisibleRight(u, x, visible);
    }
  }

  class Evaluator {
    const g: Table
    const names: Sym -> string
    /** modules_sym */
    const modulesSym: Sym
    var modulesVal: Tri
    /** sym->user, for the symbols without SYMBOL_NEW, and user.val of choices */
    var user: map<Sym, Value>
    var picks: map<Sym, Sym>
    /** The symbols with SYMBOL_VALID, other than 'y', 'm' and 'n' */
    var valid: set<Sym>
    /** sym->curr, sym->visible and sym->rev_dep.tri */
    var curr: map<Sym, Value>
    var visible: map<Sym, Tri>
    var revTri: map<Sym, Tri>
    /** The symbols calculated since the last sym_clear_all_valid, in order */
    ghost var log: seq<Sym>

    function U(): Setup
      reads this
    {
      Setup(g, user, picks, names, modulesVal)
    }

    /** 'y', 'm' and 'n' are always valid. */
    predicate IsValid(s: Sym)
      reads this
    {
      s in {SymYes, SymMod, SymNo} || s in valid
    }

    /** modules_val is the value of modules_sym: it is fixed while values are calculated. */
    ghost predicate ModulesFixed(u: Setup)
      requires Valid(u)
    {
      SymValue(u, modulesSym).tri == u.modules
    }

    /** u is what the values depend on.  The cached data are right for all valid symbols but the ones
        being calculated (busy), and the visibility also for those of them that have already got
        theirs (all but blank); every symbol has been calculated at most once. */
    ghost predicate Coherent(u: Setup, busy: set<Sym>, blank: set<Sym>)
      reads this
    {
      && u == U() && Valid(u) && ModulesFixed(u) && blank <= busy
      && ValuesRight(u, valid - busy, curr, revTri) && VisiblesRight(u, valid - blank, visible)
      && (forall m :: m in revTri ==> !IsMember(g, m))
      && (forall s :: s in log ==> s in valid)
      && (forall i, j :: 0 <= i < j < |log| ==> log[i] != log[j])
    }

    /** Only symbols that rank below h have become valid, and no value or select bound of a valid symbol
        other than those in ss has changed. */
    twostate predicate OnlyCached(h: nat, ss: set<Sym>)
      requires Ordered(g)
      reads this
    {
      && old(valid) <= valid && old(log) <= log
      && (forall x :: x in valid && x !in old(valid) ==> Rank(g, x) < h)
      && (forall x :: x in old(valid) && x !in ss && x in old(curr) ==> x in curr && curr[x] == old(curr)[x])
      && (forall x :: x in old(valid) && x !in ss ==> RevOf(revTri, x) == RevOf(old(revTri), x))
    }

    function Curr(s: Sym): Value
      reads this
      requires s in curr || s in {SymYes, SymMod, SymNo}
    {
      match s
      case SymYes => Value(YES, "y", None)
      case SymMod => Value(MOD, "m", None)
      case SymNo => Value(NO, "n", None)
      case _ => curr[s]
    }

    ghost predicate Above(h: nat, busy: set<Sym>)
      reads this
      requires Ordered(g)
    {
      forall p :: p in busy ==> h <= Rank(g, p)
    }

    /** The choice at is y for the moment: sym_calc_choice is looking for its member. */
    ghost predicate Assumed(at: Option<Sym>)
      reads this
    {
      at.Some? ==> at.value in valid && at.value in curr && curr[at.value] == Value(YES, "n", None) && at.value.Config?
    }

    // ---- Expressions ----

    /** sym_calc_value */
    method CalcValue(s: Sym, ghost u: Setup, ghost h: nat, ghost at: Option<Sym>, ghost busy: set<Sym>,
                     ghost blank: set<Sym>)
      requires Coherent(u, busy, blank) && Above(h, busy) && Assumed(at) && (at != Some(s) ==> Rank(g, s) < h)
      modifies this
      ensures Coherent(u, busy, blank) && OnlyCached(h, {}) && IsValid(s)
      ensures s in curr || s in {SymYes, SymMod, SymNo}
      ensures Curr(s) == ValueAt(u, h, s, at)
      decreases h, 0
    {
      if IsValid(s) {
        assert at != Some(s) && s in valid ==> s in valid - busy;
        return;
      }
      CalcNew(s, u, busy, blank);
    }

    /** expr_calc_value */
    method ExprCalcValue(e: Expr, ghost u: Setup, ghost h: nat, ghost at: Option<Sym>, ghost busy: set<Sym>,
                         ghost blank: set<Sym>)
      returns (v: Tri)
      requires Coherent(u, busy, blank) && Below(g, h, e, at) && Above(h, busy) && Assumed(at)
      modifies this
      ensures Coherent(u, busy, blank) && OnlyCached(h, {})
      ensures v == ExprValue(u, h, e, at)
      ensures forall t :: t in ExprSyms(e) ==> IsValid(t)
      decreases h, 1, Size(e)
    {
      match e
      case Symbol(s) =>
        assert s in ExprSyms(e);
        CalcValue(s, u, h, at, busy, blank);
        v := Curr(s).tri;
      case Not(x) =>
        assert ExprSyms(e) == ExprSyms(x);
        v := ExprCalcValue(x, u, h, at, busy, blank);
        v := Negate(v);
      case Bin(op, a, b) =>
        BelowParts(g, h, op, a, b, at);
        var v1 := ExprCalcValue(a, u, h, at, busy, blank);
        var v2 := ExprCalcValue(b, u, h, at, busy, blank);
        v := Apply(op, v1, v2);
      case Comp(eq, a, b) =>
        v := CompCalcValue(eq, a, b, u, h, at, busy, blank);
    }

    /** Its comparisons. */
    method CompCalcValue(eq: bool, a: Sym, b: Sym, ghost u: Setup, ghost h: nat, ghost at: Option<Sym>,
                         ghost busy: set<Sym>, ghost blank: set<Sym>)
      returns (v: Tri)
      requires Coherent(u, busy, blank) && Below(g, h, Comp(eq, a, b), at) && Above(h, busy) && Assumed(at)
      modifies this
      ensures Coherent(u, busy, blank) && OnlyCached(h, {}) && IsValid(a) && IsValid(b)
      ensures v == ExprValue(u, h, Comp(eq, a, b), at)
      decreases h, 1, 0
    {
      assert a in ExprSyms(Comp(eq, a, b)) && b in ExprSyms(Comp(eq, a, b));
      CalcValue(a, u, h, at, busy, blank);
      CalcValue(b, u, h, at, busy, blank);
      v := if (StringOf(a, Curr(a)) == StringOf(b, Curr(b))) == eq then YES else NO;
    }

    /** expr_calc_value on a condition, which may be missing */
    method CalcCondition(e: Option<Expr>, ghost u: Setup, ghost h: nat, ghost at: Option<Sym>, ghost busy: set<Sym>,
                         ghost blank: set<Sym>)
      returns (v: Tri)
      requires Coherent(u, busy, blank) && OptionBelow(g, h, e, at) && Above(h, busy) && Assumed(at)
      modifies this
      ensures Coherent(u, busy, blank) && OnlyCached(h, {})
      ensures v == ConditionAt(u, h, e, at)
      ensures forall t :: t in OptionSyms(e) ==> IsValid(t)
      decreases h, 2
    {
      if e.None? {
        return YES;
      }
      v := ExprCalcValue(e.value, u, h, at, busy, blank);
    }

    // ---- Bounds ----

    /** A member that is visible through its i-th property has a valid choice. */
    lemma ChoiceIsValid(s: Sym, u: Setup, i: nat, h: nat)
      requires u.g == g && Valid(u) && IsMember(g, s) && i < |Def(g, s).props| && PromptsBelow(g, s, h, None)
      requires PromptValue(u, s, i, h, None) != NO && Def(g, s).props[i].Prompt?
      requires forall t :: t in OptionSyms(Def(g, s).props[i].visible) ==> IsValid(t)
      ensures Def(g, s).memberOf.value in valid
    {
      var c := Def(g, s).memberOf.value;
      ChoiceOf(u, s);
      MemberFacts(u, c, s);
      assert Fits(g, s) && Fits(g, c);
      var e := Def(g, s).props[i].visible.value;
      assert PromptValue(u, s, i, h, None) == ExprValue(u, h, e, None);
      BoundByValue(u, h, e, c);
      assert c in OptionSyms(Def(g, s).props[i].visible);
    }

    /** The loop of sym_calc_visibility. */
    method CalcPrompts(s: Sym, ghost u: Setup, ghost h: nat, ghost at: Option<Sym>, ghost busy: set<Sym>,
                       ghost blank: set<Sym>)
      returns (tri: Tri)
      requires Coherent(u, busy, blank) && Above(h, busy) && Assumed(at) && PromptsBelow(g, s, h, at)
      modifies this
      ensures Coherent(u, busy, blank) && OnlyCached(h, {})
      ensures tri == PromptBound(u, s, |Def(g, s).props|, h, at)
      ensures IsMember(g, s) && at.None? && tri != NO ==> Def(g, s).memberOf.value in valid
      decreases h, 4
    {
      tri := NO;
      for i := 0 to |Def(g, s).props|
        invariant Coherent(u, busy, blank) && OnlyCached(h, {}) && Assumed(at)
        invariant tri == PromptBound(u, s, i, h, at)
        invariant IsMember(g, s) && at.None? && tri != NO ==> Def(g, s).memberOf.value in valid
      {
        var v := CalcPrompt(s, i, u, h, at, busy, blank);
        tri := Apply(OR, tri, v);
      }
    }

    /** One round of it. */
    method CalcPrompt(s: Sym, i: nat, ghost u: Setup, ghost h: nat, ghost at: Option<Sym>, ghost busy: set<Sym>,
                      ghost blank: set<Sym>)
      returns (v: Tri)
      requires Coherent(u, busy, blank) && Above(h, busy) && Assumed(at) && PromptsBelow(g, s, h, at)
               && i < |Def(g, s).props|
      modifies this
      ensures Coherent(u, busy, blank) && OnlyCached(h, {})
      ensures v == PromptValue(u, s, i, h, at)
      ensures IsMember(g, s) && at.None? && v != NO ==> Def(g, s).memberOf.value in valid
      decreases h, 3
    {
      v := NO;
      if Def(g, s).props[i].Prompt? {
        v := CalcCondition(Def(g, s).props[i].visible, u, h, at, busy, blank);
        if IsMember(g, s) && at.None? && v != NO {
          ChoiceIsValid(s, u, i, h);
        }
      }
    }

    /** The first half of sym_calc_visibility, up to the assignment. */
    method CalcShown(s: Sym, ghost u: Setup, ghost h: nat, ghost at: Option<Sym>, ghost busy: set<Sym>,
                     ghost blank: set<Sym>)
      returns (tri: Tri)
      requires Coherent(u, busy, blank) && Above(h, busy) && Assumed(at) && PromptsBelow(g, s, h, at)
      modifies this
      ensures Coherent(u, busy, blank) && OnlyCached(h, {})
      ensures tri == VisibilityAt(u, s, h, at)
      ensures IsMember(g, s) && at.None? && tri != NO ==> Def(g, s).memberOf.value in valid
      decreases h, 5
    {
      tri := CalcPrompts(s, u, h, at, busy, blank);
      if tri == MOD && (s.Type() != TristateType || modulesVal == NO) {
        tri := YES;
      }
    }

    /** sym_calc_visibility: for s on its own account, or on account of its choice at. */
    method CalcVisibility(s: Sym, ghost u: Setup, ghost h: nat, ghost at: Option<Sym>, ghost busy: set<Sym>,
                          ghost blank: set<Sym>)
      requires Coherent(u, busy, blank) && Above(h, busy) && Assumed(at) && PromptsBelow(g, s, h, at)
      requires if at.None? then h == Rank(g, s) && s in busy && s in valid && s.Type() != UnknownType
               else IsMember(g, s)
      requires VisibilityAt(u, s, h, at) == Visibility(u, s)
      modifies this
      ensures Coherent(u, busy, blank - {s}) && OnlyCached(h, if at.None? then {s} else {})
      ensures s in visible && visible[s] == Visibility(u, s) && RevOf(revTri, s) == SelectBound(u, s)
      ensures IsMember(g, s) && at.None? && visible[s] != NO ==> Def(g, s).memberOf.value in valid
      decreases h, 6
    {
      var tri := CalcShown(s, u, h, at, busy, blank);
      VisiblesAfter(u, valid - (blank - {s}), s, visible, tri);
      visible := visible[s := tri];
      if Def(g, s).memberOf.Some? {
        return;
      }
      CalcSelectBound(s, u, busy, blank - {s});
      assert VisibleRight(u, s, visible);
    }

    /** The second half of sym_calc_visibility, which members of a choice do not have. */
    method CalcSelectBound(s: Sym, ghost u: Setup, ghost busy: set<Sym>, ghost blank: set<Sym>)
      requires Coherent(u, busy, blank) && Above(Rank(g, s), busy) && !IsMember(g, s) && s in busy
      modifies this
      ensures Coherent(u, busy, blank) && OnlyCached(Rank(g, s), {s})
      ensures RevOf(revTri, s) == SelectBound(u, s)
      decreases Rank(g, s), 3
    {
      var tri := NO;
      RevDepDepends(g, s);
      DependsBelow(g, s, Def(g, s).revDep);
      if Def(g, s).revDep.Some? {
        tri := CalcCondition(Def(g, s).revDep, u, Rank(g, s), None, busy, blank);
      }
      if tri == MOD && EffectiveType(s, modulesVal) == BooleanType {
        tri := YES;
      }
      ValuesElsewhere(u, valid - busy, s, curr, revTri, Value(NO, "", None), tri);
      revTri := revTri[s := tri];
    }

    // ---- Values ----

    /** sym_get_default_prop: the value of the first default with a visible condition */
    method GetDefault(s: Sym, ghost u: Setup, ghost busy: set<Sym>, ghost blank: set<Sym>) returns (d: Option<Expr>)
      requires Coherent(u, busy, blank) && Above(Rank(g, s), busy) && !IsChoice(g, s)
      modifies this
      ensures Coherent(u, busy, blank) && OnlyCached(Rank(g, s), {})
      ensures d == DefaultFrom(u, s, 0)
      decreases Rank(g, s), 5
    {
      var props := Def(g, s).props;
      for i := 0 to |props|
        invariant Coherent(u, busy, blank) && OnlyCached(Rank(g, s), {})
        invariant DefaultFrom(u, s, 0) == DefaultFrom(u, s, i)
      {
        var shown := DefaultShown(s, i, u, busy, blank);
        if shown {
          return Some(props[i].value);
        }
      }
      d := None;
    }

    /** One round of it. */
    method DefaultShown(s: Sym, i: nat, ghost u: Setup, ghost busy: set<Sym>, ghost blank: set<Sym>) returns (b: bool)
      requires Coherent(u, busy, blank) && Above(Rank(g, s), busy) && !IsChoice(g, s) && i < |Def(g, s).props|
      modifies this
      ensures Coherent(u, busy, blank) && OnlyCached(Rank(g, s), {})
      ensures b ==> Def(g, s).props[i].Default? && DefaultFrom(u, s, i) == Some(Def(g, s).props[i].value)
      ensures !b ==> DefaultFrom(u, s, i) == DefaultFrom(u, s, i + 1)
      decreases Rank(g, s), 4
    {
      b := false;
      if Def(g, s).props[i].Default? {
        PropertyDepends(g, s, i);
        DependsBelow(g, s, Def(g, s).props[i].visible);
        var v := CalcCondition(Def(g, s).props[i].visible, u, Rank(g, s), None, busy, blank);
        b := v != NO;
      }
    }

    /** The value of the active default of a boolean or tristate symbol. */
    method CalcDefault(s: Sym, ghost u: Setup, ghost busy: set<Sym>, ghost blank: set<Sym>) returns (v: Tri)
      requires Coherent(u, busy, blank) && Above(Rank(g, s), busy)
      modifies this
      ensures Coherent(u, busy, blank) && OnlyCached(Rank(g, s), {})
      ensures v == DefaultTri(u, s)
      decreases Rank(g, s), 6
    {
      v := NO;
      if !IsChoice(g, s) {
        var d := GetDefault(s, u, busy, blank);
        DependsBelow(g, s, d);
        if d.Some? {
          v := CalcCondition(d, u, Rank(g, s), None, busy, blank);
        }
      }
    }

    /** The choice of a member that is being calculated is not itself being calculated. */
    lemma PickOfChoice(s: Sym, u: Setup, busy: set<Sym>, blank: set<Sym>)
      requires Coherent(u, busy, blank) && Above(Rank(g, s), busy) && IsMember(g, s)
               && Def(g, s).memberOf.value in valid
      ensures var c := Def(g, s).memberOf.value; c in curr && curr[c] == SymValue(u, c)
    {
      var c := Def(g, s).memberOf.value;
      ChoiceOf(u, s);
      MemberFacts(u, c, s);
      assert c in valid - busy;
      assert ValueRight(u, c, curr, revTri);
    }

    /** The tristate case of sym_calc_value, after sym_calc_visibility. */
    method CalcTri(s: Sym, ghost u: Setup, ghost busy: set<Sym>, ghost blank: set<Sym>) returns (v: Tri)
      requires Coherent(u, busy, blank) && Above(Rank(g, s), busy) && s in busy && s in valid && s !in blank
      requires IsTristateLike(s) && RevOf(revTri, s) == SelectBound(u, s)
      requires IsMember(g, s) && Visibility(u, s) == YES ==> Def(g, s).memberOf.value in valid
      modifies this
      ensures Coherent(u, busy, blank) && OnlyCached(Rank(g, s), {})
      ensures v == TriValue(u, s)
      decreases Rank(g, s), 7
    {
      v := NO;
      assert VisibleRight(u, s, visible);
      if Def(g, s).memberOf.Some? && visible[s] == YES {
        PickOfChoice(s, u, busy, blank);
        return if curr[Def(g, s).memberOf.value].pick == Some(s) then YES else NO;
      }
      if Apply(OR, visible[s], RevOf(revTri, s)) != NO {
        if s in user {
          v := user[s].tri;
        } else {
          v := CalcDefault(s, u, busy, blank);
        }
        assert VisibleRight(u, s, visible);
        v := Apply(OR, Apply(AND, v, visible[s]), RevOf(revTri, s));
      } else {
        v := CalcDefault(s, u, busy, blank);
      }
      if v == MOD && EffectiveType(s, modulesVal) == BooleanType {
        v := YES;
      }
    }

    /** The string, hex and int case of sym_calc_value. */
    method CalcStr(s: Sym, ghost u: Setup, ghost busy: set<Sym>, ghost blank: set<Sym>) returns (v: string)
      requires Coherent(u, busy, blank) && Above(Rank(g, s), busy) && s in valid && s !in blank
      requires !IsChoice(g, s) && s.Type() != UnknownType
      modifies this
      ensures Coherent(u, busy, blank) && OnlyCached(Rank(g, s), {})
      ensures v == StrValue(u, s)
      decreases Rank(g, s), 7
    {
      v := "";
      assert VisibleRight(u, s, visible);
      if visible[s] != NO && s in user {
        return user[s].str;
      }
      var d := GetDefault(s, u, busy, blank);
      if d.Some? && d.value.Symbol? {
        assert d.value.sym in ExprSyms(d.value);
        RankDecreases(g, s, d.value.sym);
        CalcValue(d.value.sym, u, Rank(g, s), None, busy, blank);
        v := Curr(d.value.sym).str;
      }
    }

    // ---- Choices ----

    /** One call of sym_calc_visibility from sym_calc_choice. */
    method LookAt(c: Sym, m: Sym, ghost u: Setup, ghost busy: set<Sym>, ghost blank: set<Sym>) returns (v: Tri)
      requires Coherent(u, busy, blank) && Above(Rank(g, c), busy) && m in Def(g, c).members
      requires Assumed(Some(c)) && TriValue(u, c) == YES
      modifies this
      ensures Coherent(u, busy, blank) && OnlyCached(Rank(g, c), {})
      ensures v == MemberShown(u, c, m)
      decreases Rank(g, c), 7
    {
      MemberFacts(u, c, m);
      MemberPromptsBelow(g, c, m);
      ShownIsVisible(u, c, m);
      CalcVisibility(m, u, Rank(g, c), Some(c), busy, blank);
      BlankAgain(u, busy, blank, m);
      v := visible[m];
    }

    lemma BlankAgain(u: Setup, busy: set<Sym>, blank: set<Sym>, m: Sym)
      requires Coherent(u, busy, blank - {m}) && blank <= busy
      ensures Coherent(u, busy, blank)
    {
      forall x | x in valid - blank ensures VisibleRight(u, x, visible) {
        assert x in valid - (blank - {m});
      }
    }

    /** sym_calc_choice, for a choice that is y */
    method CalcChoice(c: Sym, ghost u: Setup, ghost busy: set<Sym>, ghost blank: set<Sym>) returns (p: Option<Sym>)
      requires Coherent(u, busy, blank) && Above(Rank(g, c), busy) && c in busy && IsChoice(g, c)
      requires Assumed(Some(c)) && TriValue(u, c) == YES
      modifies this
      ensures Coherent(u, busy, blank) && OnlyCached(Rank(g, c), {c}) && RevOf(revTri, c) == RevOf(old(revTri), c)
      ensures p == Pick(u, c) && c in curr && curr[c] == Value(if p.None? then NO else YES, "n", None)
      decreases Rank(g, c), 10
    {
      if c in picks {
        PickedIsMember(u, c);
        var v := LookAt(c, picks[c], u, busy, blank);
        if v != NO {
          return Some(picks[c]);
        }
      }
      p := FindDefault(c, u, busy, blank);
      if p.None? {
        p := FindFirst(c, u, busy, blank);
      }
      if p.None? {
        SetCurr(c, curr[c].(tri := NO), u, busy, blank);
      }
    }

    /** Its second part: the defaults. */
    method FindDefault(c: Sym, ghost u: Setup, ghost busy: set<Sym>, ghost blank: set<Sym>) returns (p: Option<Sym>)
      requires Coherent(u, busy, blank) && Above(Rank(g, c), busy) && IsChoice(g, c)
      requires Assumed(Some(c)) && TriValue(u, c) == YES
      modifies this
      ensures Coherent(u, busy, blank) && OnlyCached(Rank(g, c), {})
      ensures p == PickDefault(u, c, 0)
      decreases Rank(g, c), 9
    {
      for i := 0 to |Def(g, c).props|
        invariant Coherent(u, busy, blank) && OnlyCached(Rank(g, c), {}) && Assumed(Some(c))
        invariant PickDefault(u, c, 0) == PickDefault(u, c, i)
      {
        if Def(g, c).props[i].Default? {
          DefaultIsMember(u, c, i);
          var applies := TryDefault(c, i, u, busy, blank);
          if applies {
            return Some(Def(g, c).props[i].value.sym);
          }
        }
      }
      p := None;
    }

    /** Whether the i-th property is a default that applies. */
    method TryDefault(c: Sym, i: nat, ghost u: Setup, ghost busy: set<Sym>, ghost blank: set<Sym>) returns (b: bool)
      requires Coherent(u, busy, blank) && Above(Rank(g, c), busy) && IsChoice(g, c)
      requires Assumed(Some(c)) && TriValue(u, c) == YES && i < |Def(g, c).props| && Def(g, c).props[i].Default?
      modifies this
      ensures Coherent(u, busy, blank) && OnlyCached(Rank(g, c), {})
      ensures b == DefaultApplies(u, c, i)
      decreases Rank(g, c), 8
    {
      var prop := Def(g, c).props[i];
      PropertyDepends(g, c, i);
      DependsBelow(g, c, prop.visible);
      DefaultIsMember(u, c, i);
      var v := CalcCondition(prop.visible, u, Rank(g, c), None, busy, blank);
      if v == NO {
        return false;
      }
      v := LookAt(c, prop.value.sym, u, busy, blank);
      b := v != NO;
    }

    /** Its third part: the members in order. */
    method FindFirst(c: Sym, ghost u: Setup, ghost busy: set<Sym>, ghost blank: set<Sym>) returns (p: Option<Sym>)
      requires Coherent(u, busy, blank) && Above(Rank(g, c), busy) && IsChoice(g, c)
      requires Assumed(Some(c)) && TriValue(u, c) == YES
      modifies this
      ensures Coherent(u, busy, blank) && OnlyCached(Rank(g, c), {})
      ensures p == PickFirst(u, c, 0)
      decreases Rank(g, c), 9
    {
      for i := 0 to |Def(g, c).members|
        invariant Coherent(u, busy, blank) && OnlyCached(Rank(g, c), {}) && Assumed(Some(c))
        invariant PickFirst(u, c, 0) == PickFirst(u, c, i)
      {
        var v := LookAt(c, Def(g, c).members[i], u, busy, blank);
        if v != NO {
          return Some(Def(g, c).members[i]);
        }
      }
      p := None;
    }

    // ---- sym_calc_value ----

    /** sym->curr = v */
    method SetCurr(s: Sym, v: Value, ghost u: Setup, ghost busy: set<Sym>, ghost blank: set<Sym>)
      requires Coherent(u, busy, blank) && s in busy
      modifies this`curr
      ensures Coherent(u, busy, blank) && curr == old(curr)[s := v]
    {
      ValuesElsewhere(u, valid - busy, s, curr, revTri, v, NO);
      curr := curr[s := v];
    }

    /** The first part, for a symbol with a type that has just been marked valid: visibility and
        value, but for the pick of a choice. */
    method CalcOwn(s: Sym, ghost u: Setup, ghost busy: set<Sym>, ghost blank: set<Sym>)
      requires Coherent(u, busy, blank) && Above(Rank(g, s), busy) && s in busy && s in valid
      requires s.Config? && s.Type() != UnknownType
      modifies this
      ensures Coherent(u, busy, blank - {s}) && OnlyCached(Rank(g, s), {s})
      ensures s in curr && curr[s] == OwnValue(u, s) && RevOf(revTri, s) == SelectBound(u, s)
      decreases Rank(g, s), 10
    {
      OwnPromptsBelow(g, s);
      CalcVisibility(s, u, Rank(g, s), None, busy, blank);
      // the value a recursive call would see
      SetCurr(s, Value(NO, if IsTristateLike(s) then "n" else "", None), u, busy, blank - {s});
      var newval := curr[s];
      NotChoice(u, s);
      if IsTristateLike(s) {
        var t := CalcTri(s, u, busy, blank - {s});
        newval := Value(t, "n", None);
      } else {
        var t := CalcStr(s, u, busy, blank - {s});
        newval := Value(NO, t, None);
      }
      SetCurr(s, newval, u, busy, blank - {s});
    }

    lemma NotChoice(u: Setup, s: Sym)
      requires Valid(u)
      ensures IsChoice(u.g, s) ==> IsTristateLike(s)
    {
      if IsChoice(u.g, s) {
        ChoiceTyped(u, s);
      }
    }

    /** The value of s before a choice that is y has looked for a visible member. */
    ghost function OwnValue(u: Setup, s: Sym): Value
      requires Valid(u)
    {
      if IsTristateLike(s) then Value(TriValue(u, s), "n", None)
      else if !IsChoice(u.g, s) then Value(NO, StrValue(u, s), None)
      else Value(NO, "", None)
    }

    lemma OwnIsFinal(u: Setup, s: Sym, v: Value)
      requires Valid(u) && s.Config? && s.Type() != UnknownType
      requires if IsChoice(u.g, s) && TriValue(u, s) == YES
               then v == Value(if Pick(u, s).None? then NO else YES, "n", Pick(u, s)) else v == OwnValue(u, s)
      ensures v == SymValue(u, s)
    {
      NotChoice(u, s);
    }

    /** The rest, with the pick. */
    method CalcTyped(s: Sym, ghost u: Setup, ghost busy: set<Sym>, ghost blank: set<Sym>)
      requires Coherent(u, busy, blank) && Above(Rank(g, s), busy) && s in busy && s in valid
      requires s.Config? && s.Type() != UnknownType
      modifies this
      ensures Coherent(u, busy, blank - {s}) && OnlyCached(Rank(g, s), {s}) && ValueRight(u, s, curr, revTri)
      decreases Rank(g, s), 11
    {
      CalcOwn(s, u, busy, blank);
      NotChoice(u, s);
      if Def(g, s).isChoice && curr[s].tri == YES {
        var p := CalcChoice(s, u, busy, blank - {s});
        SetCurr(s, curr[s].(pick := p), u, busy, blank - {s});
      }
      OwnIsFinal(u, s, curr[s]);
      if s == modulesSym {
        modulesVal := curr[s].tri;
      }
    }

    /** sym_calc_value, for a symbol that is not valid */
    method CalcNew(s: Sym, ghost u: Setup, ghost busy: set<Sym>, ghost blank: set<Sym>)
      requires Coherent(u, busy, blank) && Above(Rank(g, s) + 1, busy) && !IsValid(s)
      modifies this
      ensures Coherent(u, busy, blank) && OnlyCached(Rank(g, s) + 1, {}) && s in valid
      ensures s in curr && curr[s] == SymValue(u, s)
      decreases Rank(g, s), 12
    {
      valid, log := valid + {s}, log + [s];
      assert valid - (busy + {s}) == old(valid) - busy && valid - (blank + {s}) == old(valid) - blank;
      if s.Type() == UnknownType {
        ValuesElsewhere(u, valid - (busy + {s}), s, curr, revTri, Value(NO, names(s), None), NO);
        curr := curr[s := Value(NO, names(s), None)];
      } else {
        CalcTyped(s, u, busy + {s}, blank + {s});
      }
      Finished(s, u, busy, blank);
    }

    lemma Finished(s: Sym, u: Setup, busy: set<Sym>, blank: set<Sym>)
      requires s !in busy && blank <= busy && s in valid && Valid(u)
      requires ValuesRight(u, valid - (busy + {s}), curr, revTri) && ValueRight(u, s, curr, revTri)
      requires VisiblesRight(u, valid - (blank + {s}), visible) && VisibleRight(u, s, visible)
      ensures ValuesRight(u, valid - busy, curr, revTri) && VisiblesRight(u, valid - blank, visible)
    {
      forall x | x in valid - busy ensures ValueRight(u, x, curr, revTri) {
        assert x == s || x in valid - (busy + {s});
      }
      forall x | x in valid - blank ensures VisibleRight(u, x, visible) {
        assert x == s || x in valid - (blank + {s});
      }
    }

    // ---- The interface ----

    /** The cache is right, and nothing is being calculated. */
    ghost predicate Consistent()
      reads this
    {
      Coherent(U(), {}, {})
    }

    /** The state after a configuration has been read, with modules_val calculated. */
    constructor (g: Table, names: Sym -> string, modulesSym: Sym, user: map<Sym, Value>, picks: map<Sym, Sym>,
                 modules: Tri)
      requires var u := Setup(g, user, picks, names, modules);
        Valid(u) && SymValue(u, modulesSym).tri == modules
      ensures Consistent() && U() == Setup(g, user, picks, names, modules) && this.modulesSym == modulesSym
    {
      this.g, this.names, this.modulesSym, this.user, this.picks := g, names, modulesSym, user, picks;
      modulesVal := modules;
      valid, curr, visible, revTri, log := {}, map[], map[], map[], [];
    }

    /** sym_clear_all_valid */
    method ClearAllValid()
      requires Valid(U()) && ModulesFixed(U()) && forall m :: m in revTri ==> !IsMember(g, m)
      modifies this
      ensures Consistent() && U() == old(U())
    {
      valid, log := {}, [];
      CalcValue(modulesSym, U(), Rank(g, modulesSym) + 1, None, {}, {});
    }

    /** sym_calc_value from outside */
    method Calculate(s: Sym) returns (v: Value)
      requires Consistent()
      modifies this
      ensures Consistent() && U() == old(U()) && OnlyCached(Rank(g, s) + 1, {})
      ensures v == SymValue(U(), s)
    {
      CalcValue(s, U(), Rank(g, s) + 1, None, {}, {});
      v := Curr(s);
    }

    /** Any sequence of sym_calc_value calls, in any order: each gives the value of the plain recursion, and no
        symbol is calculated twice; at most one member of a choice is y, unless members have defaults of
        their own. */
    method CalcValues(order: seq<Sym>) returns (vs: seq<Value>)
      requires Consistent()
      modifies this
      ensures Consistent() && U() == old(U()) && old(valid) <= valid && old(log) <= log
      ensures AreValues(old(U()), order, vs) && AtMostOneEach(g, order, vs)
    {
      vs := [];
      ghost var u := U();
      for i := 0 to |order|
        invariant Consistent() && U() == u && old(valid) <= valid && old(log) <= log
        invariant AreValues(u, order[..i], vs)
      {
        var v := Calculate(order[i]);
        vs := vs + [v];
        assert order[..i + 1] == order[..i] + [order[i]];
      }
      assert order[..|order|] == order;
      ValuesAtMostOne(u, order, vs);
    }

    /** sym_tristate_within_range, for a calculated symbol */
    method TristateWithinRange(s: Sym, v: Tri) returns (b: bool)
      requires Consistent() && s in valid && s.Type() != UnknownType
      ensures b == WithinRange(U(), s, v)
    {
      assert ValueRight(U(), s, curr, revTri) && VisibleRight(U(), s, visible);
      var member := Def(g, s).memberOf.Some? && visible[s] == YES;
      var typ := if member then BooleanType else EffectiveType(s, modulesVal);
      if member {
        MemberTyped(U(), s);
      }
      if visible[s] == NO || (typ != BooleanType && typ != TristateType) {
        return false;
      }
      if (typ == BooleanType && v == MOD) || visible[s] <= RevOf(revTri, s) {
        return false;
      }
      if member {
        return v == YES;
      }
      b := RevOf(revTri, s) <= v <= visible[s];
    }

    lemma MemberTyped(u: Setup, s: Sym)
      requires Valid(u) && IsMember(u.g, s)
      ensures IsTristateLike(s)
    {
      ChoiceOf(u, s);
      MemberFacts(u, Def(u.g, s).memberOf.value, s);
    }

    /** sym_set_tristate_value, for a calculated symbol whose setting leaves modules_val alone.  Without
        recalculation the cache is right for the new setting exactly if what was set lasts and disturbs
        no choice; as long as it disturbs none, a recalculation reads v back exactly if it was accepted
        and lasts. */
    method SetTristateValue(s: Sym, v: Tri) returns (ok: bool)
      requires Consistent() && s in valid && IsTristateLike(s)
      requires ValueAfter(U(), s, v, modulesSym) == modulesVal
      modifies this
      ensures ok == Accepts(old(U()), s, v)
      ensures U() == if ok then WithUser(old(U()), s, v) else old(U())
      ensures !Disturbs(old(U()), s, v) ==>
                (ok && Lasting(old(U()), s, v) <==> ValueAfter(old(U()), s, v, s) == v)
      ensures !ok || SymValue(old(U()), s).tri != v ==> Consistent()
      ensures ok && SymValue(old(U()), s).tri == v ==>
        && valid == old(valid) && curr == old(curr) && visible == old(visible) && revTri == old(revTri)
        && (Harmless(old(U()), s, v) ==> Consistent())
        && (Consistent() && Touched(old(U()), s, v) <= valid ==> Harmless(old(U()), s, v))
    {
      ghost var u := U();
      assert ValueRight(u, s, curr, revTri);
      ReadBackOf(u, s, v);
      var oldval := curr[s].tri;
      if oldval != v {
        var within := TristateWithinRange(s, v);
        if !within {
          return false;
        }
      }
      StoreUser(s, v);
      WithUserValid(u, s, v);
      if oldval != v {
        ClearAllValid();
      } else {
        CacheStillRight(u, s, v);
      }
      ok := true;
    }

    /** Its assignments. */
    method StoreUser(s: Sym, v: Tri)
      modifies this`user, this`picks
      ensures U() == WithUser(old(U()), s, v)
    {
      if Def(g, s).memberOf.Some? && v == YES {
        picks := picks[Def(g, s).memberOf.value := s];
      }
      user := user[s := Value(v, if s in user then user[s].str else "", None)];
    }

    lemma ReadBackOf(u: Setup, s: Sym, v: Tri)
      requires Valid(u) && IsTristateLike(s)
      ensures !Disturbs(u, s, v) ==> (Accepts(u, s, v) && Lasting(u, s, v) <==> ValueAfter(u, s, v, s) == v)
    {
      if !Disturbs(u, s, v) {
        AcceptsIffReadBack(u, s, v);
      }
    }

    /** Whether a symbol can be set to the value it has without invalidation. */
    lemma CacheStillRight(u: Setup, s: Sym, v: Tri)
      requires Valid(u) && IsTristateLike(s) && SymValue(u, s).tri == v
      requires ValuesRight(u, valid, curr, revTri) && VisiblesRight(u, valid, visible)
      ensures Valid(WithUser(u, s, v))
      ensures Harmless(u, s, v) ==>
        ValuesRight(WithUser(u, s, v), valid, curr, revTri) && VisiblesRight(WithUser(u, s, v), valid, visible)
      ensures ValuesRight(WithUser(u, s, v), valid, curr, revTri) && Touched(u, s, v) <= valid ==>
        Harmless(u, s, v)
    {
      var u' := WithUser(u, s, v);
      WithUserValid(u, s, v);
      if Harmless(u, s, v) {
        forall x | x in valid ensures ValueRight(u', x, curr, revTri) && VisibleRight(u', x, visible) {
          assert ValueRight(u, x, curr, revTri) && VisibleRight(u, x, visible);
          NothingNoticed(u, s, v, Rank(u.g, x) + 1);
          SameBounds(u, u', Touched(u, s, v), x);
          SameValueAt(u, u', Touched(u, s, v), Rank(u.g, x) + 1, x, None);
        }
      }
      if ValuesRight(u', valid, curr, revTri) && Touched(u, s, v) <= valid {
        forall t | t in Touched(u, s, v) ensures SymValue(u', t) == SymValue(u, t) {
          assert ValueRight(u, t, curr, revTri) && ValueRight(u', t, curr, revTri);
        }
        KeptIff(u, s, v);
      }
    }
  }

  ghost predicate AreValues(u: Setup, order: seq<Sym>, vs: seq<Value>)
    requires Valid(u)
  {
    |vs| == |order| && forall i :: 0 <= i < |order| ==> vs[i] == SymValue(u, order[i])
  }

  /** Two members of the same choice that have no defaults of their own. */
  predicate Rivals(g: Table, m: Sym, m': Sym) {
    && m != m' && IsMember(g, m) && Def(g, m).memberOf == Def(g, m').memberOf
    && NoOwnDefault(g, m) && NoOwnDefault(g, m')
  }

  predicate AtMostOneEach(g: Table, order: seq<Sym>, vs: seq<Value>)
    requires |vs| == |order|
  {
    forall i, j :: 0 <= i < |order| && 0 <= j < |order| && Rivals(g, order[i], order[j]) && vs[i].tri == YES
                   ==> vs[j].tri != YES
  }

  lemma ValuesAtMostOne(u: Setup, order: seq<Sym>, vs: seq<Value>)
    requires Valid(u) && AreValues(u, order, vs)
    ensures AtMostOneEach(u.g, order, vs)
  {
    forall i, j | 0 <= i < |order| && 0 <= j < |order| && Rivals(u.g, order[i], order[j]) && vs[i].tri == YES
      ensures vs[j].tri != YES
    {
      var c := Def(u.g, order[i]).memberOf.value;
      ChoiceOf(u, order[i]);
      ChoiceOf(u, order[j]);
      AtMostOneYes(u, c, order[i], order[j]);
    }
  }
}
