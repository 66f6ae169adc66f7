/**
 Choices in package/config/symbol.c: which member is picked, and which members are y.
 */
module SymbolChoice {
  import opened Expressions
  import opened Graphs
  import opened SymbolGraph
  import opened SymbolValues

  // ---- What a choice picks ----

  /** The i-th property is the first default that applies. */
  ghost predicate FirstDefault(u: Setup, c: Sym, i: nat)
    requires Valid(u) && IsChoice(u.g, c)
  {
    i < |Def(u.g, c).props| && DefaultApplies(u, c, i) && forall j: nat :: j < i ==> !DefaultApplies(u, c, j)
  }

  /** The i-th member is the first visible one. */
  ghost predicate FirstShown(u: Setup, c: Sym, i: nat)
    requires Valid(u)
  {
    i < |Def(u.g, c).members| && ShownAt(u, c, i) && forall j: nat :: j < i ==> !ShownAt(u, c, j)
  }

  ghost predicate NoneShown(u: Setup, c: Sym)
    requires Valid(u)
  {
    forall m :: m in Def(u.g, c).members ==> MemberShown(u, c, m) == NO
  }

  /** r is the member to take: the user's if it is visible, else that of the first default that
      applies, else the first visible one; none only if none is visible. */
  ghost predicate IsPick(u: Setup, c: Sym, r: Option<Sym>)
    requires Valid(u) && IsChoice(u.g, c)
  {
    if ByUser(u, c) then r == Some(u.picks[c])
    else if exists i: nat :: FirstDefault(u, c, i) then exists i: nat :: FirstDefault(u, c, i) && Names(u, c, i, r)
    else if r.Some? then exists i: nat :: FirstShown(u, c, i) && r == Some(Def(u.g, c).members[i])
    else NoneShown(u, c)
  }

  predicate Names(u: Setup, c: Sym, i: nat, r: Option<Sym>) {
    i < |Def(u.g, c).props| && Def(u.g, c).props[i].Default? && r == Some(DefaultSym(Def(u.g, c).props[i].value))
  }

  function DefaultSym(e: Expr): Sym {
    if e.Symbol? then e.sym else SymNo
  }

  lemma {:induction false} PickDefaultIs(u: Setup, c: Sym, i: nat)
    requires Valid(u) && IsChoice(u.g, c) && i <= |Def(u.g, c).props|
    requires forall j: nat :: j < i ==> !DefaultApplies(u, c, j)
    ensures PickDefault(u, c, i).Some? ==>
      exists k: nat :: FirstDefault(u, c, k) && Names(u, c, k, PickDefault(u, c, i))
    ensures PickDefault(u, c, i).None? ==> forall k: nat :: !FirstDefault(u, c, k)
    decreases |Def(u.g, c).props| - i
  {
    if i < |Def(u.g, c).props| {
      if DefaultApplies(u, c, i) {
        DefaultIsMember(u, c, i);
        assert FirstDefault(u, c, i) && Names(u, c, i, PickDefault(u, c, i));
      } else {
        PickDefaultIs(u, c, i + 1);
      }
    }
  }

  lemma {:induction false} PickFirstIs(u: Setup, c: Sym, i: nat)
    requires Valid(u) && i <= |Def(u.g, c).members|
    requires forall j: nat :: j < i ==> !ShownAt(u, c, j)
    ensures PickFirst(u, c, i).Some? ==>
      exists k: nat :: FirstShown(u, c, k) && PickFirst(u, c, i) == Some(Def(u.g, c).members[k])
    ensures PickFirst(u, c, i).None? ==> NoneShown(u, c)
    decreases |Def(u.g, c).members| - i
  {
    if i < |Def(u.g, c).members| {
      if ShownAt(u, c, i) {
        assert FirstShown(u, c, i);
      } else {
        PickFirstIs(u, c, i + 1);
      }
    } else {
      AllHidden(u, c);
    }
  }

  lemma AllHidden(u: Setup, c: Sym)
    requires Valid(u) && forall j: nat :: j < |Def(u.g, c).members| ==> !ShownAt(u, c, j)
    ensures NoneShown(u, c)
  {
    forall m | m in Def(u.g, c).members ensures MemberShown(u, c, m) == NO {
      var j: nat :| j < |Def(u.g, c).members| && Def(u.g, c).members[j] == m;
      assert !ShownAt(u, c, j);
    }
  }

  /** sym_calc_choice takes that member ... */
  lemma PickIs(u: Setup, c: Sym)
    requires Valid(u) && IsChoice(u.g, c)
    ensures IsPick(u, c, Pick(u, c))
  {
    PickDefaultIs(u, c, 0);
    PickFirstIs(u, c, 0);
  }

  /** ... which leaves no other ... */
  lemma PickUnique(u: Setup, c: Sym, r: Option<Sym>, r': Option<Sym>)
    requires Valid(u) && IsChoice(u.g, c) && IsPick(u, c, r) && IsPick(u, c, r')
    ensures r == r'
  {
    if !ByUser(u, c) {
      if exists i: nat :: FirstDefault(u, c, i) {
        var i: nat :| FirstDefault(u, c, i) && Names(u, c, i, r);
        var k: nat :| FirstDefault(u, c, k) && Names(u, c, k, r');
        assert i == k;
      } else {
        ShownUnique(u, c, r, r');
      }
    }
  }

  lemma ShownUnique(u: Setup, c: Sym, r: Option<Sym>, r': Option<Sym>)
    requires Valid(u)
    requires if r.Some? then exists i: nat :: FirstShown(u, c, i) && r == Some(Def(u.g, c).members[i])
             else NoneShown(u, c)
    requires if r'.Some? then exists i: nat :: FirstShown(u, c, i) && r' == Some(Def(u.g, c).members[i])
             else NoneShown(u, c)
    ensures r == r'
  {
    if r.Some? {
      var i: nat :| FirstShown(u, c, i) && r == Some(Def(u.g, c).members[i]);
      ShownNotNone(u, c, i);
      var k: nat :| FirstShown(u, c, k) && r' == Some(Def(u.g, c).members[k]);
      assert i == k;
    } else if r'.Some? {
      var k: nat :| FirstShown(u, c, k) && r' == Some(Def(u.g, c).members[k]);
      ShownNotNone(u, c, k);
    }
  }

  lemma ShownNotNone(u: Setup, c: Sym, i: nat)
    requires Valid(u) && i < |Def(u.g, c).members| && ShownAt(u, c, i)
    ensures !NoneShown(u, c)
  {
    assert Def(u.g, c).members[i] in Def(u.g, c).members;
    assert MemberShown(u, c, Def(u.g, c).members[i]) != NO;
  }

  /** ... and is visible; it is missing only if no member is visible. */
  lemma PickShown(u: Setup, c: Sym)
    requires Valid(u) && IsChoice(u.g, c)
    ensures Pick(u, c).Some? ==> MemberShown(u, c, Pick(u, c).value) != NO
    ensures Pick(u, c).None? <==> NoneShown(u, c)
  {
    if ByUser(u, c) {
      PickedIsMember(u, c);
    } else {
      PickDefaultIs(u, c, 0);
      PickFirstIs(u, c, 0);
      if PickDefault(u, c, 0).Some? {
        var k: nat :| FirstDefault(u, c, k) && Names(u, c, k, PickDefault(u, c, 0));
        DefaultIsMember(u, c, k);
      } else if PickFirst(u, c, 0).Some? {
        var k: nat :| FirstShown(u, c, k) && PickFirst(u, c, 0) == Some(Def(u.g, c).members[k]);
      }
    }
  }

  // ---- Visibility of the members, once the choice has its value ----

  /** If the choice is y, what was assumed to calculate it was right. */
  lemma {:induction false} AssumedValue(u: Setup, c: Sym, h: nat, e: Expr, k: nat)
    requires Valid(u) && IsTristateLike(c) && SymValue(u, c).tri == YES
    requires Below(u.g, h, e, Some(c)) && Below(u.g, k, e, None)
    ensures ExprValue(u, h, e, Some(c)) == ExprValue(u, k, e, None)
  {
    match e
    case Symbol(_) =>
    case Not(x) =>
      assert ExprSyms(e) == ExprSyms(x);
      AssumedValue(u, c, h, x, k);
    case Bin(op, a, b) =>
      BelowParts(u.g, h, op, a, b, Some(c));
      BelowParts(u.g, k, op, a, b, None);
      AssumedValue(u, c, h, a, k);
      AssumedValue(u, c, h, b, k);
    case Comp(_, a, b) =>
      assert a in ExprSyms(e) && b in ExprSyms(e);
  }

  lemma AssumedPromptValue(u: Setup, c: Sym, m: Sym, i: nat, h: nat, k: nat)
    requires Valid(u) && IsTristateLike(c) && SymValue(u, c).tri == YES && i < |Def(u.g, m).props|
    requires PromptsBelow(u.g, m, h, Some(c)) && PromptsBelow(u.g, m, k, None)
    ensures PromptValue(u, m, i, h, Some(c)) == PromptValue(u, m, i, k, None)
  {
    var p := Def(u.g, m).props[i];
    if p.Prompt? && p.visible.Some? {
      AssumedValue(u, c, h, p.visible.value, k);
    }
  }

  lemma {:induction false} AssumedPromptBound(u: Setup, c: Sym, m: Sym, n: nat, h: nat, k: nat)
    requires Valid(u) && IsTristateLike(c) && SymValue(u, c).tri == YES && n <= |Def(u.g, m).props|
    requires PromptsBelow(u.g, m, h, Some(c)) && PromptsBelow(u.g, m, k, None)
    ensures PromptBound(u, m, n, h, Some(c)) == PromptBound(u, m, n, k, None)
  {
    if n > 0 {
      AssumedPromptBound(u, c, m, n - 1, h, k);
      AssumedPromptValue(u, c, m, n - 1, h, k);
    }
  }

  /** A condition that is bound by c is at most c. */
  lemma {:induction false} BoundByValue(u: Setup, h: nat, e: Expr, c: Sym)
    requires Valid(u) && Below(u.g, h, e, None) && BoundBy(e, c) && IsTristateLike(c)
    ensures ExprValue(u, h, e, None) <= SymValue(u, c).tri
    ensures ExprValue(u, h, e, None) != NO ==> c in ExprSyms(e)
  {
    match e
    case Bin(op, a, b) =>
      BelowParts(u.g, h, op, a, b, None);
      if BoundBy(a, c) {
        BoundByValue(u, h, a, c);
      } else {
        BoundByValue(u, h, b, c);
      }
    case Symbol(s) =>
      assert ExprValue(u, h, e, None) == SymValue(u, s).tri;
    case Comp(_, a, b) =>
      assert a in ExprSyms(e) && b in ExprSyms(e);
      assert "n"[0] != 'y' && "m"[0] != 'y';
      assert SymValue(u, b).str == "y" && StringOf(a, SymValue(u, a)) == TriName(SymValue(u, a).tri);
  }

  lemma MemberPromptValue(u: Setup, c: Sym, m: Sym, i: nat, h: nat)
    requires Valid(u) && m in Def(u.g, c).members && i < |Def(u.g, m).props| && PromptsBelow(u.g, m, h, None)
    ensures PromptValue(u, m, i, h, None) <= SymValue(u, c).tri
  {
    MemberFacts(u, c, m);
    assert Fits(u.g, m);
    var p := Def(u.g, m).props[i];
    if p.Prompt? {
      BoundByValue(u, h, p.visible.value, c);
    }
  }

  lemma {:induction false} PromptBoundAtMost(u: Setup, s: Sym, n: nat, h: nat, b: Tri)
    requires Valid(u) && n <= |Def(u.g, s).props| && PromptsBelow(u.g, s, h, None)
    requires forall i: nat :: i < n ==> PromptValue(u, s, i, h, None) <= b
    ensures PromptBound(u, s, n, h, None) <= b
  {
    if n > 0 {
      PromptBoundAtMost(u, s, n - 1, h, b);
      assert PromptValue(u, s, n - 1, h, None) <= b;
    }
  }

  /** A member is visible only if its choice is not n, and fully visible only if it is y. */
  lemma MemberBelowChoice(u: Setup, c: Sym, m: Sym)
    requires Valid(u) && m in Def(u.g, c).members
    ensures Visibility(u, m) <= SymValue(u, c).tri
  {
    MemberFacts(u, c, m);
    OwnPromptsBelow(u.g, m);
    forall i: nat | i < |Def(u.g, m).props| ensures PromptValue(u, m, i, Rank(u.g, m), None) <= SymValue(u, c).tri {
      MemberPromptValue(u, c, m, i, Rank(u.g, m));
    }
    PromptBoundAtMost(u, m, |Def(u.g, m).props|, Rank(u.g, m), SymValue(u, c).tri);
    TriValueBounds(u, c);
  }

  /** Whatever becomes of a choice that is y at first, the visibility calculated for its members on
      the way is the one they have in the end. */
  lemma ShownIsVisible(u: Setup, c: Sym, m: Sym)
    requires Valid(u) && m in Def(u.g, c).members && TriValue(u, c) == YES
    ensures MemberShown(u, c, m) == Visibility(u, m)
  {
    MemberFacts(u, c, m);
    TriValueBounds(u, c);
    if SymValue(u, c).tri == YES {
      MemberPromptsBelow(u.g, c, m);
      OwnPromptsBelow(u.g, m);
      AssumedPromptBound(u, c, m, |Def(u.g, m).props|, Rank(u.g, c), Rank(u.g, m));
    } else {
      PickShown(u, c);
      MemberBelowChoice(u, c, m);
    }
  }

  // ---- The members ----

  /** A choice has a pick exactly if it is y, and then the pick is visible. */
  lemma PickVisible(u: Setup, c: Sym)
    requires Valid(u) && IsChoice(u.g, c)
    ensures SymValue(u, c).pick == if SymValue(u, c).tri == YES then Pick(u, c) else None
    ensures SymValue(u, c).tri == YES ==>
      SymValue(u, c).pick.Some? && SymValue(u, c).pick.value in Def(u.g, c).members
      && Visibility(u, SymValue(u, c).pick.value) != NO
  {
    ChoiceTyped(u, c);
    TriValueBounds(u, c);
    PickShown(u, c);
    if SymValue(u, c).tri == YES {
      ShownIsVisible(u, c, Pick(u, c).value);
    }
  }

  lemma ChoiceTyped(u: Setup, c: Sym)
    requires Valid(u) && IsChoice(u.g, c)
    ensures IsTristateLike(c) && c.Config? && SymValue(u, c) == ChoiceValue(u, c)
  {
    assert c in u.g;
    assert Fits(u.g, c);
  }

  /** A member is y exactly if it is the fully visible pick of its choice, or not visible and has a
      default of its own that makes it y. */
  lemma MemberYesIff(u: Setup, c: Sym, m: Sym)
    requires Valid(u) && m in Def(u.g, c).members
    ensures SymValue(u, m).tri == YES <==>
      || (Visibility(u, m) == YES && SymValue(u, c).pick == Some(m))
      || (Visibility(u, m) == NO
          && (DefaultTri(u, m) == YES || (DefaultTri(u, m) == MOD && EffectiveType(m, u.modules) == BooleanType)))
  {
    MemberFacts(u, c, m);
    TriValueBounds(u, m);
  }

  /** Members for which menu_finalize does not warn about a default of their own. */
  predicate NoOwnDefault(g: Table, m: Sym) {
    forall i :: 0 <= i < |Def(g, m).props| ==> !Def(g, m).props[i].Default?
  }

  lemma {:induction false} NoDefaultFrom(u: Setup, m: Sym, i: nat)
    requires Valid(u) && !IsChoice(u.g, m) && NoOwnDefault(u.g, m) && i <= |Def(u.g, m).props|
    ensures DefaultFrom(u, m, i).None?
    decreases |Def(u.g, m).props| - i
  {
    if i < |Def(u.g, m).props| {
      NoDefaultFrom(u, m, i + 1);
    }
  }

  lemma NoDefaultTri(u: Setup, m: Sym)
    requires Valid(u) && NoOwnDefault(u.g, m)
    ensures DefaultTri(u, m) == NO
  {
    if !IsChoice(u.g, m) {
      NoDefaultFrom(u, m, 0);
    }
  }

  /** At most one member of a choice is y, and none unless the choice is. */
  lemma AtMostOneYes(u: Setup, c: Sym, m: Sym, m': Sym)
    requires Valid(u) && m in Def(u.g, c).members && m' in Def(u.g, c).members
    requires NoOwnDefault(u.g, m) && NoOwnDefault(u.g, m') && SymValue(u, m).tri == YES
    ensures SymValue(u, c).tri == YES && (SymValue(u, m').tri == YES ==> m == m')
  {
    MemberYesIff(u, c, m);
    MemberYesIff(u, c, m');
    NoDefaultTri(u, m);
    NoDefaultTri(u, m');
    MemberBelowChoice(u, c, m);
  }

  /** Exactly one member is y, if a choice that cannot be m is y. */
  lemma ExactlyOneYes(u: Setup, c: Sym, m: Sym)
    requires Valid(u) && IsChoice(u.g, c) && m in Def(u.g, c).members && NoOwnDefault(u.g, m)
    requires EffectiveType(c, u.modules) == BooleanType && SymValue(u, c).tri == YES
    ensures SymValue(u, m).tri == YES <==> Pick(u, c) == Some(m)
  {
    PickVisible(u, c);
    MemberYesIff(u, c, m);
    NoDefaultTri(u, m);
    MemberFacts(u, c, m);
    OwnPromptsBelow(u.g, m);
    assert Visibility(u, m) != MOD;
  }

  // ---- Which tables can be calculated ----

  /** What calculating s needs beyond the dependencies that sym_check_deps follows: of a choice the symbols
      its members' prompts depend on, of a member its choice. */
  function ChoiceDeps(g: Table, s: Sym): seq<Sym> {
    MembersSyms(g, s, Def(g, s).members) + if IsMember(g, s) then [Def(g, s).memberOf.value] else []
  }

  /** No symbol needs its own value exactly if sym_check_deps finds no cycle and none of these additional
      dependencies leads back. */
  lemma OrderedIff(g: Table)
    ensures Ordered(g) <==>
      && Acyclic(CheckGraph(g))
      && forall s, t :: t in ChoiceDeps(g, s) ==> t in Deps(g, s) || (t != s && !Leads(EvalGraph(g), t, s))
  {
    forall s, t
      ensures t in Next(CheckGraph(g), s) <==> t in Deps(g, s)
      ensures t in Next(EvalGraph(g), s) <==> t in Deps(g, s) || t in ChoiceDeps(g, s)
    {
      CheckGraphNext(g, s);
      EvalGraphNext(g, s);
    }
    AcyclicMoreEdges(CheckGraph(g), EvalGraph(g));
  }

  /** Without choices these are the tables in which sym_check_deps finds nothing. */
  lemma OrderedWithoutChoices(g: Table)
    requires forall s :: s in g ==> g[s].members == [] && g[s].memberOf == None
    ensures Ordered(g) <==> Acyclic(CheckGraph(g))
  {
    forall s, t | t in ChoiceDeps(g, s) ensures s in g {
    }
    OrderedIff(g);
  }
}
