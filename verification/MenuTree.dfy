/**
 menu_finalize of package/config/menu.c: dependencies are passed down to the children of an entry,
 entries that depend on their predecessor become its children, and the children of entries
 without a prompt are moved up.
 */
module MenuTree {
  import opened Expressions
  import opened ExprVisibility
  import opened MenuForest
  import opened MenuShape

  function Lookup(m: map<nat, Expr>, i: nat): Option<Expr> {
    if i in m then Some(m[i]) else None
  }

  function Store(m: map<nat, Expr>, i: nat, e: Option<Expr>): map<nat, Expr> {
    if e.Some? then m[i := e.value] else m - {i}
  }

  /** Every entry with children has a prompt. */
  predicate ParentsPrompted(prompted: set<nat>, f: Forest) {
    match f
    case Empty => true
    case Entry(i, kids, rest) =>
      (kids.Entry? ==> i in prompted) && ParentsPrompted(prompted, kids) && ParentsPrompted(prompted, rest)
  }

  /** Below the top, every entry with children has a prompt. */
  predicate KidsPrompted(prompted: set<nat>, f: Forest) {
    f.Entry? ==> ParentsPrompted(prompted, f.kids) && KidsPrompted(prompted, f.rest)
  }

  lemma {:induction false} PromptedConcat(prompted: set<nat>, a: Forest, b: Forest)
    ensures ParentsPrompted(prompted, Concat(a, b)) <==> ParentsPrompted(prompted, a) && ParentsPrompted(prompted, b)
    ensures KidsPrompted(prompted, Concat(a, b)) <==> KidsPrompted(prompted, a) && KidsPrompted(prompted, b)
  {
    if a.Entry? {
      PromptedConcat(prompted, a.rest, b);
    }
  }

  lemma {:induction false} PromptedKids(prompted: set<nat>, a: Forest)
    requires ParentsPrompted(prompted, a)
    ensures KidsPrompted(prompted, a)
  {
    if a.Entry? {
      PromptedKids(prompted, a.rest);
    }
  }

  predicate AllBare(dep: map<nat, Expr>, visible: map<nat, Expr>, ids: set<nat>) {
    forall i :: i in ids ==> BareTypedOption(Lookup(dep, i)) && BareTypedOption(Lookup(visible, i))
  }

  /** The expressions of entry i that the adoption test looks at are in normal form (and, with
      typed, made of boolean and tristate symbols). */
  predicate TidyAt(prompted: set<nat>, dep: map<nat, Expr>, visible: map<nat, Expr>, i: nat, typed: bool) {
    TidyOption(Lookup(dep, i), typed) && (i in prompted ==> TidyOption(Lookup(visible, i), typed))
  }

  predicate AllTidy(prompted: set<nat>, dep: map<nat, Expr>, visible: map<nat, Expr>, ids: set<nat>, typed: bool) {
    forall i :: i in ids ==> TidyAt(prompted, dep, visible, i, typed)
  }

  /** The expressions (d', v') that entry i has after the condition cond was passed down to it;
      (d, v) are the ones it had before. */
  predicate PassedDown(prompt: bool, relax: bool, cond: Option<Expr>,
                       d: Option<Expr>, v: Option<Expr>, d': Option<Expr>, v': Option<Expr>) {
    d' == BaseDependency(cond, d) && v' == if prompt then PropertyVisibility(d', v, relax) else v
  }

  lemma PassedDownTidy(prompt: bool, relax: bool, cond: Option<Expr>, d: Option<Expr>, v: Option<Expr>,
                       d': Option<Expr>, v': Option<Expr>, typed: bool)
    requires PassedDown(prompt, relax, cond, d, v, d', v')
    requires TidyOption(cond, typed) && (typed ==> BareTypedOption(d) && BareTypedOption(v))
    ensures TidyOption(d', typed) && (prompt ==> TidyOption(v', typed))
  {
    PropertyVisibilityTidy(cond, d, false, typed);
    PropertyVisibilityTidy(d', v, relax, typed);
  }

  predicate SameData(m: map<nat, Expr>, m': map<nat, Expr>, i: nat) {
    Lookup(m, i) == Lookup(m', i)
  }

  /** Only the expressions of entries in ids have changed. */
  ghost predicate DataOnly(m: map<nat, Expr>, m': map<nat, Expr>, ids: set<nat>) {
    forall i :: i !in ids ==> SameData(m, m', i)
  }

  /** What menu_finalize changes. */
  datatype MenuState = MenuState(k: Links, dep: map<nat, Expr>, visible: map<nat, Expr>,
                                 log: seq<nat>)

  class Menus {
    /** menu->sym, and whether menu->prompt is present; both are fixed by the parser. */
    const sym: map<nat, Sym>
    const prompted: set<nat>
    /** The entries whose symbol is a choice. */
    const choices: set<nat>

    var next: map<nat, nat>
    var list: map<nat, nat>
    var parent: map<nat, nat>
    /** menu->dep and menu->prompt->visible.expr; a missing expression is NULL. */
    var dep: map<nat, Expr>
    var visible: map<nat, Expr>

    /** The entries finalized so far. */
    ghost var log: seq<nat>

    function K(): Links
      reads this
    {
      Links(next, list, parent)
    }

    /** The last loop of menu_finalize: the children of an entry without a prompt become its
        successors. */
    method Hoist(p: nat, ghost kids: Forest) returns (ghost kids': Forest)
      requires Seg(K(), Ptr(list, p), None, Some(p), kids) && Distinct(kids) && p !in Ids(kids)
      requires KidsPrompted(prompted, kids)
      modifies this`next, this`list, this`parent
      ensures Seg(K(), Ptr(list, p), None, Some(p), kids')
      ensures kids' == HoistAll(prompted, kids) && Pre(kids') == Pre(kids)
      ensures ParentsPrompted(prompted, kids')
      ensures OnlyChanged(old(K()), K(), Ids(kids))
    {
      var menu := Ptr(list, p);
      ghost var done, todo := Empty, kids;
      while menu.Some?
        invariant Seg(K(), Ptr(list, p), menu, Some(p), done) && Seg(K(), menu, None, Some(p), todo)
        invariant HoistAll(prompted, kids) == Concat(done, HoistAll(prompted, todo))
        invariant Pre(done) + Pre(todo) == Pre(kids)
        invariant ParentsPrompted(prompted, done) && KidsPrompted(prompted, todo)
        invariant OnlyChanged(old(K()), K(), Ids(kids))
        decreases Count(todo)
      {
        DoneTodo(done, todo, kids);
        var m := menu.value;
        if Ptr(list, m).Some? && m !in prompted {
          HoistOne(p, m, done, todo);
          HoistedFacts(todo);
          todo := Hoisted(todo);
          DoneTodo(done, todo, kids);
        }
        HoistAllStep(prompted, done, todo);
        Advance(K(), Ptr(list, p), None, Some(p), done, todo);
        PromptedConcat(prompted, done, First(todo));
        done, todo := Concat(done, First(todo)), todo.rest;
        menu := Ptr(next, m);
      }
      ConcatEmpty(done);
      kids' := done;
    }

    /** A chain whose first entry has given its children away. */
    static function Hoisted(f: Forest): Forest
      requires f.Entry?
    {
      Entry(f.id, Empty, Concat(f.kids, f.rest))
    }

    lemma HoistedFacts(f: Forest)
      requires f.Entry? && KidsPrompted(prompted, f)
      ensures Pre(Hoisted(f)) == Pre(f) && Count(Hoisted(f)) == Count(f)
      ensures KidsPrompted(prompted, Hoisted(f))
      ensures f.kids.Entry? && f.id !in prompted ==> HoistAll(prompted, f) == HoistAll(prompted, Hoisted(f))
    {
      MovedUpPre(f);
      SamePre(Hoisted(f), f);
      PromptedConcat(prompted, f.kids, f.rest);
      PromptedKids(prompted, f.kids);
    }

    /** Facts about a chain that is cut in two. */
    lemma DoneTodo(done: Forest, todo: Forest, all: Forest)
      requires Pre(done) + Pre(todo) == Pre(all) && Distinct(all)
      ensures Distinct(done) && Distinct(todo) && Ids(done) !! Ids(todo) && Ids(done) + Ids(todo) == Ids(all)
    {
      ConcatFacts(done, todo);
      SamePre(Concat(done, todo), all);
    }

    /** One step of that loop. */
    method HoistOne(p: nat, m: nat, ghost done: Forest, ghost todo: Forest)
      requires todo.Entry? && todo.id == m && Ptr(list, m).Some?
      requires Seg(K(), Ptr(list, p), Some(m), Some(p), done) && Seg(K(), Some(m), None, Some(p), todo)
      requires Distinct(todo) && Ids(done) !! Ids(todo) && p !in Ids(done) + Ids(todo)
      modifies this`next, this`list, this`parent
      ensures Seg(K(), Ptr(list, p), Some(m), Some(p), done)
      ensures Seg(K(), Some(m), None, Some(p), Hoisted(todo))
      ensures OnlyChanged(old(K()), K(), Ids(todo))
    {
      ghost var kids := todo.kids;
      TopInIds(kids);
      var last := ReparentAll(p, m, kids);
      ghost var k := K();
      AfterReparentAll(old(K()), k, p, m, done, todo);
      next := SetPtr(next, last, Ptr(next, m));
      next := SetPtr(next, m, Ptr(list, m));
      list := SetPtr(list, m, None);
      HoistLinks(k, K(), p, m, kids, todo.rest);
      SegEntry(K(), m, None, Some(p), Empty, Concat(kids, todo.rest));
      LastInIds(kids);
      SegFrame(k, K(), Ptr(k.list, p), Some(m), Some(p), done);
      OnlyChangedThen(old(K()), k, K(), TopIds(kids), {m, last});
    }

    /** The rest of the chains, after the children of m have got their new parent. */
    lemma AfterReparentAll(k0: Links, k1: Links, p: nat, m: nat, done: Forest, todo: Forest)
      requires todo.Entry? && todo.id == m && Distinct(todo) && Ids(done) !! Ids(todo) && p !in Ids(done) + Ids(todo)
      requires Seg(k0, Ptr(k0.list, p), Some(m), Some(p), done) && Seg(k0, Some(m), None, Some(p), todo)
      requires OnlyChanged(k0, k1, TopIds(todo.kids))
      ensures Seg(k1, Ptr(k1.list, p), Some(m), Some(p), done)
      ensures Seg(k1, Ptr(k1.next, m), None, Some(p), todo.rest) && SameAt(k0, k1, m)
    {
      TopInIds(todo.kids);
      SegFrame(k0, k1, Ptr(k0.list, p), Some(m), Some(p), done);
      SegFrame(k0, k1, Ptr(k0.next, m), None, Some(p), todo.rest);
      assert SameAt(k0, k1, p);
    }

    /** The relinking itself: the children and the rest of the chain become one chain. */
    lemma HoistLinks(k: Links, k': Links, p: nat, m: nat, kids: Forest, rest: Forest)
      requires kids.Entry? && Distinct(kids) && Ids(kids) !! Ids(rest) && m !in Ids(kids) && m !in Ids(rest)
      requires Seg(k, Ptr(k.list, m), None, Some(p), kids) && Seg(k, Ptr(k.next, m), None, Some(p), rest)
      requires k'.parent == k.parent && k'.list == SetPtr(k.list, m, None)
      requires k'.next == SetPtr(SetPtr(k.next, Last(kids), Ptr(k.next, m)), m, Ptr(k.list, m))
      ensures Seg(k', Ptr(k.list, m), None, Some(p), Concat(kids, rest)) && Ptr(k'.next, m) == Ptr(k.list, m)
      ensures OnlyChanged(k, k', {m, Last(kids)})
    {
      LastInIds(kids);
      SegFrame(k, k', Ptr(k.next, m), None, Some(p), rest);
      SegReend(k, k', Ptr(k.list, m), None, Ptr(k.next, m), Some(p), kids);
      SegAppend(k', Ptr(k.list, m), Ptr(k.next, m), None, Some(p), kids, rest);
    }

    lemma ReparentStep(k: Links, k': Links, p: nat, m: nat, last: nat, done: Forest, kids: Forest, rest: Forest)
      requires Ids(done) !! Ids(kids) + Ids(rest) && last !in Ids(done) + Ids(kids) + Ids(rest)
      requires k' == k.(parent := k.parent[last := p])
      requires Seg(k, Ptr(k.list, m), Some(last), Some(p), done)
      requires Seg(k, Ptr(k.list, last), None, Some(last), kids) && Seg(k, Ptr(k.next, last), None, Some(m), rest)
      ensures Seg(k', Ptr(k'.list, m), Ptr(k'.next, last), Some(p), Concat(done, Entry(last, kids, Empty)))
      ensures Seg(k', Ptr(k'.next, last), None, Some(m), rest)
      ensures OnlyChanged(k, k', {last})
    {
      SegFrame(k, k', Ptr(k.list, m), Some(last), Some(p), done);
      SegFrame(k, k', Ptr(k.list, last), None, Some(last), kids);
      SegFrame(k, k', Ptr(k.next, last), None, Some(m), rest);
      SegEntry(k', last, Ptr(k'.next, last), Some(p), kids, Empty);
      SegAppend(k', Ptr(k'.list, m), Some(last), Ptr(k'.next, last), Some(p), done, Entry(last, kids, Empty));
    }

    /** Facts about a chain cut in two, by structure. */
    lemma CutFacts(all: Forest, done: Forest, todo: Forest)
      requires todo.Entry? && Concat(done, todo) == all && Distinct(all)
      ensures Distinct(todo) && Ids(done) !! Ids(todo) && todo.id in TopIds(all)
      ensures Concat(Concat(done, First(todo)), todo.rest) == all
    {
      ConcatFacts(done, todo);
      ConcatAssoc(done, First(todo), todo.rest);
    }

    lemma OnlyChangedThen(k0: Links, k1: Links, k2: Links, a: set<nat>, b: set<nat>)
      requires OnlyChanged(k0, k1, a) && OnlyChanged(k1, k2, b)
      ensures OnlyChanged(k0, k2, a + b)
    {
      forall i | i !in a + b ensures SameAt(k0, k2, i) {
        assert SameAt(k0, k1, i) && SameAt(k1, k2, i);
      }
    }

    /** The inner loop: the children of m get the parent p; the last of them is returned. */
    method ReparentAll(p: nat, m: nat, ghost kids: Forest) returns (last: nat)
      requires kids.Entry? && Seg(K(), Ptr(list, m), None, Some(m), kids) && Distinct(kids)
      modifies this`parent
      ensures Seg(K(), Ptr(list, m), None, Some(p), kids) && last == Last(kids)
      ensures OnlyChanged(old(K()), K(), TopIds(kids))
    {
      last := list[m];
      ghost var done, todo, k0 := Empty, kids, K();
      while true
        invariant todo.Entry? && todo.id == last && Concat(done, todo) == kids
        invariant Seg(K(), Ptr(list, m), Some(last), Some(p), done) && Seg(K(), Some(last), None, Some(m), todo)
        invariant OnlyChanged(k0, K(), TopIds(kids))
        decreases todo
      {
        ghost var k := K();
        CutFacts(kids, done, todo);
        parent := parent[last := p];
        ReparentStep(k, K(), p, m, last, done, todo.kids, todo.rest);
        OnlyChangedThen(k0, k, K(), TopIds(kids), {last});
        assert TopIds(kids) + {last} == TopIds(kids);
        MoveFirst(done, todo);
        done, todo := Concat(done, First(todo)), todo.rest;
        if Ptr(next, last).None? {
          assert todo.Empty?;
          ConcatEmpty(done);
          break;
        }
        last := next[last];
      }
    }

    // ---- Dependencies ----

    /** The condition an entry is shown under: its prompt's, or its own without one. */
    function Shown(dep: map<nat, Expr>, visible: map<nat, Expr>, i: nat): Option<Expr> {
      if i in prompted then Lookup(visible, i) else Lookup(dep, i)
    }

    function PromptCondition(visible: map<nat, Expr>, i: nat): Option<Expr> {
      if i in prompted then Lookup(visible, i) else None
    }

    /** The condition passed down to the children. */
    function ParentCondition(dep: map<nat, Expr>, visible: map<nat, Expr>, p: nat): Option<Expr> {
      if p in choices && p in sym then Some(Symbol(sym[p])) else Shown(dep, visible, p)
    }

    function Relaxed(i: nat): bool {
      i in sym && sym[i].Type() != TristateType
    }

    /** Entry i has the expressions that passing cond down gives it. */
    ghost predicate Passed(cond: Option<Expr>, dep0: map<nat, Expr>, visible0: map<nat, Expr>,
                           dep1: map<nat, Expr>, visible1: map<nat, Expr>, i: nat) {
      PassedDown(i in prompted, Relaxed(i), cond, Lookup(dep0, i), Lookup(visible0, i), Lookup(dep1, i),
        Lookup(visible1, i))
    }

    ghost predicate AllPassed(cond: Option<Expr>, dep0: map<nat, Expr>, visible0: map<nat, Expr>,
                              dep1: map<nat, Expr>, visible1: map<nat, Expr>, ids: set<nat>) {
      forall i :: i in ids ==> Passed(cond, dep0, visible0, dep1, visible1, i)
    }

    /** The first loop of menu_finalize: parent conditions are passed down to the children. */
    method SpreadDependencies(p: nat, ghost kids: Forest)
      requires Seg(K(), Ptr(list, p), None, Some(p), kids) && Distinct(kids)
      modifies this`dep, this`visible
      ensures DataOnly(old(dep), dep, TopIds(kids)) && DataOnly(old(visible), visible, TopIds(kids))
      ensures AllPassed(ParentCondition(old(dep), old(visible), p), old(dep), old(visible), dep, visible, TopIds(kids))
    {
      var cond := ParentCondition(dep, visible, p);
      var menu := Ptr(list, p);
      ghost var done, todo := Empty, kids;
      while menu.Some?
        invariant Seg(K(), menu, None, Some(p), todo) && Concat(done, todo) == kids
        invariant Spread(cond, old(dep), old(visible), dep, visible, TopIds(done))
        decreases todo
      {
        var m := menu.value;
        SpreadCut(kids, done, todo);
        ghost var dep1, visible1 := dep, visible;
        PassDown(cond, m);
        PassedStep(cond, old(dep), old(visible), dep1, visible1, dep, visible, TopIds(done), m);
        done, todo := Concat(done, First(todo)), todo.rest;
        menu := Ptr(next, m);
      }
      ConcatEmpty(done);
    }

    lemma SpreadCut(all: Forest, done: Forest, todo: Forest)
      requires todo.Entry? && Concat(done, todo) == all && Distinct(all)
      ensures todo.id !in TopIds(done) && TopIds(Concat(done, First(todo))) == TopIds(done) + {todo.id}
      ensures Concat(Concat(done, First(todo)), todo.rest) == all
    {
      ConcatFacts(done, todo);
      TopInIds(done);
      ConcatFacts(done, First(todo));
      ConcatAssoc(done, First(todo), todo.rest);
    }

    /** The entries in ids, and no others, have had cond passed down to them. */
    ghost predicate Spread(cond: Option<Expr>, dep0: map<nat, Expr>, visible0: map<nat, Expr>,
                           dep1: map<nat, Expr>, visible1: map<nat, Expr>, ids: set<nat>) {
      && AllPassed(cond, dep0, visible0, dep1, visible1, ids)
      && DataOnly(dep0, dep1, ids) && DataOnly(visible0, visible1, ids)
    }

    lemma PassedStep(cond: Option<Expr>, dep0: map<nat, Expr>, visible0: map<nat, Expr>,
                     dep1: map<nat, Expr>, visible1: map<nat, Expr>,
                     dep2: map<nat, Expr>, visible2: map<nat, Expr>, ids: set<nat>, m: nat)
      requires m !in ids && Spread(cond, dep0, visible0, dep1, visible1, ids)
      requires DataOnly(dep1, dep2, {m}) && DataOnly(visible1, visible2, {m})
      requires Passed(cond, dep1, visible1, dep2, visible2, m)
      ensures Spread(cond, dep0, visible0, dep2, visible2, ids + {m})
    {
      assert SameData(dep0, dep1, m) && SameData(visible0, visible1, m);
      forall i | i in ids ensures Passed(cond, dep0, visible0, dep2, visible2, i) {
        assert Passed(cond, dep0, visible0, dep1, visible1, i);
        assert SameData(dep1, dep2, i) && SameData(visible1, visible2, i);
      }
      forall i | i !in ids + {m} ensures SameData(dep0, dep2, i) && SameData(visible0, visible2, i) {
        assert SameData(dep0, dep1, i) && SameData(dep1, dep2, i);
        assert SameData(visible0, visible1, i) && SameData(visible1, visible2, i);
      }
    }

    /** The body of that loop: one child. */
    method PassDown(cond: Option<Expr>, m: nat)
      modifies this`dep, this`visible
      ensures DataOnly(old(dep), dep, {m}) && DataOnly(old(visible), visible, {m})
      ensures Passed(cond, old(dep), old(visible), dep, visible, m)
    {
      var base := BaseDependency(cond, Lookup(dep, m));
      dep := Store(dep, m, base);
      if m in prompted {
        visible := Store(visible, m, PropertyVisibility(base, Lookup(visible, m), Relaxed(m)));
      }
    }

    /** Every entry of f before end has passed its condition down to its children, these to theirs,
        and so on: (dep0, visible0) are the expressions before, (dep1, visible1) those after. */
    ghost predicate Inherited(dep0: map<nat, Expr>, visible0: map<nat, Expr>, dep1: map<nat, Expr>,
                              visible1: map<nat, Expr>, f: Forest, end: Forest)
      decreases f
    {
      f != end && f.Entry? ==>
        && AllPassed(ParentCondition(dep1, visible1, f.id), dep0, visible0, dep1, visible1, TopIds(f.kids))
        && Inherited(dep0, visible0, dep1, visible1, f.kids, Empty)
        && Inherited(dep0, visible0, dep1, visible1, f.rest, end)
    }

    ghost predicate SameExprs(dep: map<nat, Expr>, visible: map<nat, Expr>, dep': map<nat, Expr>,
                              visible': map<nat, Expr>, ids: set<nat>) {
      forall i :: i in ids ==> SameData(dep, dep', i) && SameData(visible, visible', i)
    }

    lemma ChainParts(f: Forest, end: Forest)
      requires f.Entry? && f != end && Distinct(f) && Suffix(f, end)
      ensures TopIds(f.kids) <= Ids(f.kids) <= Ids(f) - TopIds(f) && {f.id} + Ids(f.kids) <= Ids(f) - Ids(end)
      ensures Ids(f.rest) - TopIds(f.rest) <= Ids(f) - TopIds(f) && Ids(f.rest) - Ids(end) <= Ids(f) - Ids(end)
    {
      SuffixFacts(f.rest, end);
      TopInIds(f.kids);
      TopInIds(f.rest);
    }

    lemma PassedFrame(dep0: map<nat, Expr>, visible0: map<nat, Expr>, dep0': map<nat, Expr>, visible0': map<nat, Expr>,
                      dep1: map<nat, Expr>, visible1: map<nat, Expr>, dep1': map<nat, Expr>, visible1': map<nat, Expr>,
                      p: nat, ids: set<nat>)
      requires AllPassed(ParentCondition(dep1, visible1, p), dep0, visible0, dep1, visible1, ids)
      requires SameExprs(dep0, visible0, dep0', visible0', ids)
               && SameExprs(dep1, visible1, dep1', visible1', {p} + ids)
      ensures AllPassed(ParentCondition(dep1', visible1', p), dep0', visible0', dep1', visible1', ids)
    {
      assert SameData(dep1, dep1', p) && SameData(visible1, visible1', p);
      forall i | i in ids ensures Passed(ParentCondition(dep1', visible1', p), dep0', visible0', dep1', visible1', i) {
        assert Passed(ParentCondition(dep1, visible1, p), dep0, visible0, dep1, visible1, i);
        assert SameData(dep0, dep0', i) && SameData(dep1, dep1', i);
      }
    }

    /** Only the expressions below the top matter before, all of them after. */
    lemma {:induction false} InheritedFrame(dep0: map<nat, Expr>, visible0: map<nat, Expr>,
                                            dep0': map<nat, Expr>, visible0': map<nat, Expr>,
                                            dep1: map<nat, Expr>, visible1: map<nat, Expr>,
                                            dep1': map<nat, Expr>, visible1': map<nat, Expr>, f: Forest, end: Forest)
      requires Inherited(dep0, visible0, dep1, visible1, f, end) && Distinct(f)
      requires SameExprs(dep0, visible0, dep0', visible0', Ids(f) - TopIds(f))
      requires SameExprs(dep1, visible1, dep1', visible1', Ids(f) - Ids(end)) && Suffix(f, end)
      ensures Inherited(dep0', visible0', dep1', visible1', f, end)
      decreases f
    {
      if f != end {
        ChainParts(f, end);
        PassedFrame(dep0, visible0, dep0', visible0', dep1, visible1, dep1', visible1', f.id, TopIds(f.kids));
        SuffixEmpty(f.kids);
        InheritedFrame(dep0, visible0, dep0', visible0', dep1, visible1, dep1', visible1', f.kids, Empty);
        InheritedFrame(dep0, visible0, dep0', visible0', dep1, visible1, dep1', visible1', f.rest, end);
      }
    }

    lemma {:induction false} InheritedThen(dep0: map<nat, Expr>, visible0: map<nat, Expr>,
                                           dep1: map<nat, Expr>, visible1: map<nat, Expr>,
                                           all: Forest, todo: Forest, end: Forest)
      requires Inherited(dep0, visible0, dep1, visible1, all, todo)
               && Inherited(dep0, visible0, dep1, visible1, todo, end)
      ensures Inherited(dep0, visible0, dep1, visible1, all, end)
      decreases all
    {
      if all != todo && all.Entry? {
        InheritedThen(dep0, visible0, dep1, visible1, all.rest, todo, end);
      }
    }

    /** The chain f has been dealt with up to end, and what is left is as it was. */
    ghost predicate HandedDown(s0: MenuState, s1: MenuState, f: Forest, end: Forest) {
      && Inherited(s0.dep, s0.visible, s1.dep, s1.visible, f, end)
      && SameExprs(s0.dep, s0.visible, s1.dep, s1.visible, Ids(end))
    }

    lemma HandedDownThen(s0: MenuState, s1: MenuState, s2: MenuState, all: Forest, todo: Forest, end: Forest)
      requires HandedDown(s0, s1, all, todo) && HandedDown(s1, s2, todo, end)
      requires Distinct(all) && Suffix(all, todo) && Suffix(todo, end)
      requires DataOnly(s1.dep, s2.dep, Ids(todo) - TopIds(todo))
               && DataOnly(s1.visible, s2.visible, Ids(todo) - TopIds(todo))
      ensures HandedDown(s0, s2, all, end)
    {
      SuffixFacts(all, todo);
      SuffixFacts(todo, end);
      forall i | i in Ids(end) ensures SameData(s0.dep, s2.dep, i) && SameData(s0.visible, s2.visible, i) {
        assert SameData(s0.dep, s1.dep, i) && SameData(s1.dep, s2.dep, i);
      }
      InheritedFrame(s0.dep, s0.visible, s0.dep, s0.visible, s1.dep, s1.visible, s2.dep, s2.visible, all, todo);
      InheritedFrame(s1.dep, s1.visible, s0.dep, s0.visible, s2.dep, s2.visible, s2.dep, s2.visible, todo, end);
      InheritedThen(s0.dep, s0.visible, s2.dep, s2.visible, all, todo, end);
    }

    lemma HandedDownStart(s: MenuState, f: Forest)
      ensures HandedDown(s, s, f, f)
    {
    }

    /** The expressions below the top of a menu are determined by those there were before. */
    lemma {:induction false} InheritedUnique(dep0: map<nat, Expr>, visible0: map<nat, Expr>,
                                             dep1: map<nat, Expr>, visible1: map<nat, Expr>,
                                             dep2: map<nat, Expr>, visible2: map<nat, Expr>, f: Forest)
      requires Inherited(dep0, visible0, dep1, visible1, f, Empty)
               && Inherited(dep0, visible0, dep2, visible2, f, Empty)
      requires SameExprs(dep1, visible1, dep2, visible2, TopIds(f))
      ensures SameExprs(dep1, visible1, dep2, visible2, Ids(f))
      decreases f
    {
      if f.Entry? {
        forall i | i in TopIds(f.kids) ensures SameData(dep1, dep2, i) && SameData(visible1, visible2, i) {
          assert Passed(ParentCondition(dep1, visible1, f.id), dep0, visible0, dep1, visible1, i);
          assert Passed(ParentCondition(dep2, visible2, f.id), dep0, visible0, dep2, visible2, i);
          assert SameData(dep1, dep2, f.id);
        }
        InheritedUnique(dep0, visible0, dep1, visible1, dep2, visible2, f.kids);
        InheritedUnique(dep0, visible0, dep1, visible1, dep2, visible2, f.rest);
      }
    }

    // ---- Adoption ----

    /** c may be a child of q: wherever expr_trans_compare neither understates the condition of c nor
        overstates the prompt of q, c is shown only if the symbol of q is set or its prompt visible. */
    ghost predicate Sound(c: Option<Expr>, q: Sym, prompt: Option<Expr>) {
      forall env: Env ::
        && WellTyped(env) && c.Some? && NotUnderstated(c.value, env)
        && (prompt.Some? ==> NotOverstated(prompt.value, env)) && EvalOption(c, env) != NO
        ==> IsSet(q, env) || EvalOption(prompt, env) != NO
    }

    /** The same, wherever no negated part of its condition is m. */
    ghost predicate TypedSound(c: Option<Expr>, q: Sym, prompt: Option<Expr>) {
      forall env: Env :: WellTyped(env) && c.Some? && NegationsDefinite(c.value, env) && EvalOption(c, env) != NO
                         ==> env.tri(q) != NO || EvalOption(prompt, env) != NO
    }

    ghost predicate SoundPair(dep: map<nat, Expr>, visible: map<nat, Expr>, c: nat, q: nat) {
      q in sym && Sound(Shown(dep, visible, c), sym[q], PromptCondition(visible, q))
    }

    /** c passes the test for becoming a child of q. */
    predicate Accepts(dep: map<nat, Expr>, visible: map<nat, Expr>, c: nat, q: nat) {
      q in sym && Adopts(sym[q], PromptCondition(visible, q), Shown(dep, visible, c))
    }

    /** What the expressions decide. */
    ghost function Decided(dep: map<nat, Expr>, visible: map<nat, Expr>): Decisions {
      (c: nat, q: nat) => Accepts(dep, visible, c, q)
    }

    lemma SameDecisions(dep: map<nat, Expr>, visible: map<nat, Expr>, dep': map<nat, Expr>, visible': map<nat, Expr>,
                        changed: set<nat>, ids: set<nat>)
      requires DataOnly(dep, dep', changed) && DataOnly(visible, visible', changed) && ids !! changed
      ensures Agree(Decided(dep, visible), Decided(dep', visible'), ids)
    {
      SameAccepts(dep, visible, dep', visible', ids);
    }

    lemma SameAccepts(dep: map<nat, Expr>, visible: map<nat, Expr>, dep': map<nat, Expr>, visible': map<nat, Expr>,
                      ids: set<nat>)
      requires SameExprs(dep, visible, dep', visible', ids)
      ensures Agree(Decided(dep, visible), Decided(dep', visible'), ids)
    {
      forall c: nat, q: nat | c in ids && q in ids
        ensures Accepts(dep, visible, c, q) == Accepts(dep', visible', c, q)
      {
        assert SameData(dep, dep', c) && SameData(visible, visible', c) && SameData(visible, visible', q);
      }
    }

    /** The test of menu_finalize for making m a child of p. */
    method AdoptionTest(p: nat, m: nat) returns (b: bool)
      requires p in sym
      ensures b == Accepts(dep, visible, m, p)
      ensures b && AllTidy(prompted, dep, visible, {m, p}, false) ==> SoundPair(dep, visible, m, p)
    {
      b := Adopts(sym[p], PromptCondition(visible, p), Shown(dep, visible, m));
      if b && AllTidy(prompted, dep, visible, {m, p}, false) {
        AcceptedSound(dep, visible, m, p);
      }
    }

    lemma AcceptedSound(dep: map<nat, Expr>, visible: map<nat, Expr>, c: nat, q: nat)
      requires Accepts(dep, visible, c, q)
      requires TidyAt(prompted, dep, visible, q, false) && TidyAt(prompted, dep, visible, c, false)
      ensures SoundPair(dep, visible, c, q)
    {
      var prompt, shown := PromptCondition(visible, q), Shown(dep, visible, c);
      forall env: Env | WellTyped(env) && shown.Some? && NotUnderstated(shown.value, env)
                        && (prompt.Some? ==> NotOverstated(prompt.value, env)) && EvalOption(shown, env) != NO
        ensures IsSet(sym[q], env) || EvalOption(prompt, env) != NO
      {
        AdoptionSound(sym[q], prompt, shown, env);
      }
    }

    lemma AcceptedTypedSound(dep: map<nat, Expr>, visible: map<nat, Expr>, c: nat, q: nat)
      requires Accepts(dep, visible, c, q) && IsTristateLike(sym[q])
      requires TidyAt(prompted, dep, visible, q, true) && TidyAt(prompted, dep, visible, c, true)
      ensures TypedSound(Shown(dep, visible, c), sym[q], PromptCondition(visible, q))
    {
      var prompt, shown := PromptCondition(visible, q), Shown(dep, visible, c);
      forall env: Env | WellTyped(env) && shown.Some? && NegationsDefinite(shown.value, env)
        && EvalOption(shown, env) != NO
        ensures env.tri(sym[q]) != NO || EvalOption(prompt, env) != NO
      {
        TypedAdoptionSound(sym[q], prompt, shown, env);
      }
    }

    /** Among these entries, only those are accepted as children that soundly may be. */
    ghost predicate AcceptsSoundly(dep: map<nat, Expr>, visible: map<nat, Expr>, ids: set<nat>) {
      forall c, q :: c in ids && q in ids && Accepts(dep, visible, c, q) ==> SoundPair(dep, visible, c, q)
    }

    ghost predicate ChoicesTyped() {
      forall c :: c in choices && c in sym ==> IsTristateLike(sym[c])
    }

    /** All expressions end up in normal form, and typed if they were from the beginning ... */
    lemma {:induction false} InheritedTidy(dep0: map<nat, Expr>, visible0: map<nat, Expr>, dep1: map<nat, Expr>,
                                           visible1: map<nat, Expr>, f: Forest, typed: bool)
      requires Inherited(dep0, visible0, dep1, visible1, f, Empty)
      requires AllTidy(prompted, dep1, visible1, TopIds(f), typed)
      requires typed ==> AllBare(dep0, visible0, Ids(f)) && ChoicesTyped()
      ensures AllTidy(prompted, dep1, visible1, Ids(f), typed)
      decreases f
    {
      if f.Entry? {
        assert TidyAt(prompted, dep1, visible1, f.id, typed);
        TopInIds(f.kids);
        InheritedTidyKids(dep0, visible0, dep1, visible1, f.id, TopIds(f.kids), typed);
        InheritedTidy(dep0, visible0, dep1, visible1, f.kids, typed);
        InheritedTidy(dep0, visible0, dep1, visible1, f.rest, typed);
      }
    }

    lemma InheritedTidyKids(dep0: map<nat, Expr>, visible0: map<nat, Expr>, dep1: map<nat, Expr>,
                            visible1: map<nat, Expr>, p: nat, ids: set<nat>, typed: bool)
      requires AllPassed(ParentCondition(dep1, visible1, p), dep0, visible0, dep1, visible1, ids)
      requires TidyAt(prompted, dep1, visible1, p, typed)
      requires typed ==> AllBare(dep0, visible0, ids) && ChoicesTyped()
      ensures AllTidy(prompted, dep1, visible1, ids, typed)
    {
      var cond := ParentCondition(dep1, visible1, p);
      forall i | i in ids ensures TidyAt(prompted, dep1, visible1, i, typed) {
        assert Passed(cond, dep0, visible0, dep1, visible1, i);
        PassedDownTidy(i in prompted, Relaxed(i), cond, Lookup(dep0, i), Lookup(visible0, i),
                       Lookup(dep1, i), Lookup(visible1, i), typed);
      }
    }

    /** ... so every entry accepted as a child soundly may be one ... */
    lemma InheritedSound(dep0: map<nat, Expr>, visible0: map<nat, Expr>,
                         dep1: map<nat, Expr>, visible1: map<nat, Expr>, f: Forest)
      requires Inherited(dep0, visible0, dep1, visible1, f, Empty)
      requires AllTidy(prompted, dep1, visible1, TopIds(f), false)
      ensures AcceptsSoundly(dep1, visible1, Ids(f))
    {
      InheritedTidy(dep0, visible0, dep1, visible1, f, false);
      forall c, q | c in Ids(f) && q in Ids(f) && Accepts(dep1, visible1, c, q)
        ensures SoundPair(dep1, visible1, c, q)
      {
        assert TidyAt(prompted, dep1, visible1, c, false) && TidyAt(prompted, dep1, visible1, q, false);
        AcceptedSound(dep1, visible1, c, q);
      }
    }

    /** ... and in a menu without undefined symbols only a negated m can make a difference. */
    lemma InheritedTypedSound(dep0: map<nat, Expr>, visible0: map<nat, Expr>,
                              dep1: map<nat, Expr>, visible1: map<nat, Expr>, f: Forest)
      requires Inherited(dep0, visible0, dep1, visible1, f, Empty)
      requires AllTidy(prompted, dep1, visible1, TopIds(f), true) && AllBare(dep0, visible0, Ids(f)) && ChoicesTyped()
      ensures forall c, q :: c in Ids(f) && q in Ids(f) && Accepts(dep1, visible1, c, q) && IsTristateLike(sym[q])
                             ==> TypedSound(Shown(dep1, visible1, c), sym[q], PromptCondition(visible1, q))
    {
      InheritedTidy(dep0, visible0, dep1, visible1, f, true);
      forall c, q | c in Ids(f) && q in Ids(f) && Accepts(dep1, visible1, c, q) && IsTristateLike(sym[q])
        ensures TypedSound(Shown(dep1, visible1, c), sym[q], PromptCondition(visible1, q))
      {
        assert TidyAt(prompted, dep1, visible1, c, true) && TidyAt(prompted, dep1, visible1, q, true);
        AcceptedTypedSound(dep1, visible1, c, q);
      }
    }

    ghost function State(): MenuState
      reads this
    {
      MenuState(K(), dep, visible, log)
    }

    /** The bookkeeping that every part of menu_finalize keeps: only the entries of f change, the
        expressions only below its top, and the entries of the finished part have each been finalized
        once. */
    ghost predicate Kept(s0: MenuState, s1: MenuState, f: Forest, finished: Forest)
    {
      && OnlyChanged(s0.k, s1.k, Ids(f))
      && DataOnly(s0.dep, s1.dep, Ids(f) - TopIds(f)) && DataOnly(s0.visible, s1.visible, Ids(f) - TopIds(f))
      && multiset(s1.log) == multiset(s0.log) + multiset(Pre(finished))
    }

    lemma DataOnlyThen(m0: map<nat, Expr>, m1: map<nat, Expr>, m2: map<nat, Expr>, a: set<nat>, b: set<nat>)
      requires DataOnly(m0, m1, a) && DataOnly(m1, m2, b) && b <= a
      ensures DataOnly(m0, m2, a)
    {
      forall i | i !in a ensures SameData(m0, m2, i) {
        assert SameData(m0, m1, i) && SameData(m1, m2, i);
      }
    }

    /** Work on the rest of a chain after work on its beginning. */
    lemma KeptThen(s0: MenuState, s1: MenuState, s2: MenuState, all: Forest, done: Forest, todo: Forest, one: Forest)
      requires Kept(s0, s1, all, done) && Kept(s1, s2, todo, one)
      requires Ids(todo) <= Ids(all) && TopIds(todo) == TopIds(all) * Ids(todo)
      ensures Kept(s0, s2, all, Concat(done, one))
    {
      ConcatFacts(done, one);
      KeptParts(s0, s1, s2, Ids(all), TopIds(all), Ids(todo), TopIds(todo));
    }

    lemma KeptParts(s0: MenuState, s1: MenuState, s2: MenuState, all: set<nat>, top: set<nat>, part: set<nat>,
                    partTop: set<nat>)
      requires part <= all && partTop == top * part
      requires OnlyChanged(s0.k, s1.k, all) && OnlyChanged(s1.k, s2.k, part)
      requires DataOnly(s0.dep, s1.dep, all - top) && DataOnly(s0.visible, s1.visible, all - top)
      requires DataOnly(s1.dep, s2.dep, part - partTop) && DataOnly(s1.visible, s2.visible, part - partTop)
      ensures OnlyChanged(s0.k, s2.k, all)
      ensures DataOnly(s0.dep, s2.dep, all - top) && DataOnly(s0.visible, s2.visible, all - top)
    {
      OnlyChangedThen(s0.k, s1.k, s2.k, all, part);
      assert all + part == all;
      DataOnlyThen(s0.dep, s1.dep, s2.dep, all - top, part - partTop);
      DataOnlyThen(s0.visible, s1.visible, s2.visible, all - top, part - partTop);
    }

    lemma KeptStart(s: MenuState, f: Forest)
      ensures Kept(s, s, f, Empty)
    {
    }

    /** The loop that finalizes the children of p. */
    method FinalizeKids(p: nat, ghost kids: Forest) returns (ghost kids': Forest)
      requires Seg(K(), Ptr(list, p), None, Some(p), kids) && Distinct(kids) && p !in Ids(kids)
      modifies this
      ensures Seg(K(), Ptr(list, p), None, Some(p), kids') && Pre(kids') == Pre(kids)
      ensures KidsPrompted(prompted, kids') && ChainProgress(kids, prompted, Decided(dep, visible), kids', Empty)
      ensures HandedDown(old(State()), State(), kids, Empty)
      ensures Kept(old(State()), State(), kids, kids')
      decreases Count(kids), 3
    {
      var menu := Ptr(list, p);
      ghost var done, todo, s0 := Empty, kids, State();
      KeptStart(s0, kids);
      HandedDownStart(s0, kids);
      while menu.Some?
        invariant Seg(K(), Ptr(list, p), menu, Some(p), done) && Seg(K(), menu, None, Some(p), todo)
        invariant Pre(done) + Pre(todo) == Pre(kids) && Suffix(kids, todo)
        invariant KidsPrompted(prompted, done) && ChainProgress(kids, prompted, Decided(dep, visible), done, todo)
        invariant Kept(s0, State(), kids, done) && HandedDown(s0, State(), kids, todo)
        decreases Count(todo)
      {
        var m := menu.value;
        DoneTodo(done, todo, kids);
        SuffixFacts(kids, todo);
        ghost var s1 := State();
        ghost var t := Finalize(m, todo, Some(p));
        AfterKid(s0, s1, State(), p, m, kids, done, todo, t);
        KidShape(s1, State(), kids, done, todo, t);
        HandedDownThen(s0, s1, State(), kids, todo, t.rest);
        done, todo := Concat(done, First(t)), t.rest;
        menu := Ptr(next, m);
      }
      kids' := done;
      assert Pre(todo) == [];
    }

    /** One step of that loop: t is what the rest of the chain is after its first entry m was finalized. */
    lemma AfterKid(s0: MenuState, s1: MenuState, s2: MenuState, p: nat, m: nat, kids: Forest, done: Forest,
                   todo: Forest, t: Forest)
      requires todo.Entry? && t.Entry? && t.id == m && Distinct(kids) && p !in Ids(kids)
      requires Pre(done) + Pre(todo) == Pre(kids) && Suffix(kids, todo) && Pre(t) == Pre(todo)
               && Suffix(todo.rest, t.rest)
      requires Seg(s1.k, Ptr(s1.k.list, p), Some(m), Some(p), done) && Seg(s2.k, Some(m), None, Some(p), t)
      requires Kept(s0, s1, kids, done) && Kept(s1, s2, todo, First(t))
      requires KidsPrompted(prompted, done) && ParentsPrompted(prompted, t.kids)
      ensures Seg(s2.k, Ptr(s2.k.list, p), Ptr(s2.k.next, m), Some(p), Concat(done, First(t)))
      ensures Seg(s2.k, Ptr(s2.k.next, m), None, Some(p), t.rest)
      ensures Pre(Concat(done, First(t))) + Pre(t.rest) == Pre(kids) && Suffix(kids, t.rest)
      ensures KidsPrompted(prompted, Concat(done, First(t))) && Count(t.rest) < Count(todo)
      ensures Kept(s0, s2, kids, Concat(done, First(t)))
    {
      DoneTodo(done, todo, kids);
      SuffixFacts(kids, todo);
      SamePre(todo, t);
      assert SameAt(s1.k, s2.k, p);
      SegFrame(s1.k, s2.k, Ptr(s1.k.list, p), Some(m), Some(p), done);
      KeptThen(s0, s1, s2, kids, done, todo, First(t));
      Advance(s2.k, Ptr(s2.k.list, p), None, Some(p), done, t);
      MoveFirst(done, t);
      AdoptedPrompted(done, t);
      SuffixRest(kids, todo, t.rest);
    }

    lemma KidShape(s1: MenuState, s2: MenuState, kids: Forest, done: Forest, todo: Forest, t: Forest)
      requires todo.Entry? && t.Entry? && Distinct(todo) && Pre(t) == Pre(todo) && Suffix(todo.rest, t.rest)
      requires Ids(done) !! Ids(todo) && Kept(s1, s2, todo, First(t))
      requires ChainProgress(kids, prompted, Decided(s1.dep, s1.visible), done, todo)
      requires IsShaped(todo, prompted, Decided(s2.dep, s2.visible), t)
      ensures ChainProgress(kids, prompted, Decided(s2.dep, s2.visible), Concat(done, First(t)), t.rest)
    {
      TopStays(todo, t);
      SameDecisions(s1.dep, s1.visible, s2.dep, s2.visible, Ids(todo) - TopIds(todo), Ids(done) + TopIds(todo));
      ChainStep(kids, prompted, Decided(s1.dep, s1.visible), Decided(s2.dep, s2.visible), done, todo, t);
    }

    /** Relinking entries of f. */
    lemma KeptRelink(s0: MenuState, s1: MenuState, s2: MenuState, f: Forest, finished: Forest, finished': Forest)
      requires Kept(s0, s1, f, finished) && Pre(finished) == Pre(finished')
      requires OnlyChanged(s1.k, s2.k, Ids(f)) && s2 == s1.(k := s2.k)
      ensures Kept(s0, s2, f, finished')
    {
      forall i | i !in Ids(f) ensures SameAt(s0.k, s2.k, i) {
        assert SameAt(s0.k, s1.k, i) && SameAt(s1.k, s2.k, i);
      }
    }

    /** Invariant of the loop that looks for siblings to adopt: done are the adopted ones, whose
        parent is already p, todo the ones still to be looked at. */
    ghost predicate Adopting(s0: MenuState, s: MenuState, menu: Option<nat>, p: nat, par: Option<nat>,
                             f: Forest, done: Forest, todo: Forest)
    {
      && f.Entry? && f.id == p && f.kids.Empty? && Distinct(f)
      && Seg(s.k, Ptr(s.k.next, p), menu, Some(p), done) && Seg(s.k, menu, None, par, todo)
      && Ptr(s.k.list, p) == None && Ptr(s.k.parent, p) == par
      && Pre(done) + Pre(todo) == Pre(f.rest) && Suffix(f.rest, todo)
      && KidsPrompted(prompted, done) && AbsorbProgress(p, f.rest, prompted, Decided(s.dep, s.visible), done, todo)
      && Kept(s0, s, f, done) && HandedDown(s0, s, f.rest, todo)
    }

    lemma AdoptingParts(s0: MenuState, s: MenuState, menu: Option<nat>, p: nat, par: Option<nat>,
                        f: Forest, done: Forest, todo: Forest)
      requires Adopting(s0, s, menu, p, par, f, done, todo)
      ensures Distinct(done) && Distinct(todo) && Ids(done) !! Ids(todo) && Ids(done) + Ids(todo) == Ids(f.rest)
      ensures Ids(todo) <= Ids(f) && TopIds(todo) == TopIds(f) * Ids(todo) && p !in Ids(todo) && p !in Ids(done)
      ensures Count(todo) < Count(f)
    {
      DoneTodo(done, todo, f.rest);
      SuffixFacts(f.rest, todo);
      SuffixFacts(f, todo);
    }

    /** After the sibling m has been finalized. */
    lemma AfterFinalize(s0: MenuState, s1: MenuState, s2: MenuState, p: nat, m: nat, par: Option<nat>,
                        f: Forest, done: Forest, todo: Forest, t: Forest)
      requires Adopting(s0, s1, Some(m), p, par, f, done, todo) && t.Entry? && t.id == m
      requires Kept(s1, s2, todo, First(t))
      ensures Seg(s2.k, Ptr(s2.k.next, p), Some(m), Some(p), done) && SameAt(s1.k, s2.k, p)
      ensures Kept(s0, s2, f, Concat(done, First(t)))
    {
      AdoptingParts(s0, s1, Some(m), p, par, f, done, todo);
      SegFrame(s1.k, s2.k, Ptr(s1.k.next, p), Some(m), Some(p), done);
      KeptThen(s0, s1, s2, f, done, todo, First(t));
      ConcatFacts(done, First(t));
    }

    lemma SiblingShape(s1: MenuState, s2: MenuState, p: nat, rest: Forest, done: Forest, todo: Forest, t: Forest)
      requires todo.Entry? && t.Entry? && Distinct(todo) && Pre(t) == Pre(todo) && Suffix(todo.rest, t.rest)
      requires Ids(done) !! Ids(todo) && p !in Ids(todo) && Kept(s1, s2, todo, First(t))
      requires Accepts(s1.dep, s1.visible, todo.id, p)
      requires AbsorbProgress(p, rest, prompted, Decided(s1.dep, s1.visible), done, todo)
      requires IsShaped(todo, prompted, Decided(s2.dep, s2.visible), t)
      ensures AbsorbProgress(p, rest, prompted, Decided(s2.dep, s2.visible), Concat(done, First(t)), t.rest)
    {
      TopStays(todo, t);
      SameDecisions(s1.dep, s1.visible, s2.dep, s2.visible, Ids(todo) - TopIds(todo), {p} + Ids(done) + TopIds(todo));
      AbsorbStep(p, rest, prompted, Decided(s1.dep, s1.visible), Decided(s2.dep, s2.visible), done, todo, t);
    }

    /** After m has got its new parent. */
    lemma AfterReparent(k2: Links, k3: Links, p: nat, m: nat, par: Option<nat>, done: Forest, t: Forest)
      requires t.Entry? && t.id == m && Distinct(t) && Ids(done) !! Ids(t) && p !in Ids(t)
      requires Seg(k2, Ptr(k2.next, p), Some(m), Some(p), done) && Seg(k2, Some(m), None, par, t)
      requires OnlyChanged(k2, k3, {m}) && Ptr(k3.parent, m) == Some(p)
      requires Ptr(k2.next, m) == Ptr(k3.next, m) && Ptr(k2.list, m) == Ptr(k3.list, m)
      ensures Seg(k3, Ptr(k3.next, p), Ptr(k3.next, m), Some(p), Concat(done, First(t)))
      ensures Seg(k3, Ptr(k3.next, m), None, par, t.rest)
      ensures SameAt(k2, k3, p)
    {
      SegFrame(k2, k3, Ptr(k2.next, p), Some(m), Some(p), done);
      SegFrame(k2, k3, Ptr(k2.list, m), None, Some(m), t.kids);
      SegFrame(k2, k3, Ptr(k2.next, m), None, par, t.rest);
      assert SameAt(k2, k3, p);
      SegAppend(k3, Ptr(k3.next, p), Some(m), Ptr(k3.next, m), Some(p), done, First(t));
    }

    lemma AdoptedChain(f: Forest, done: Forest, todo: Forest, t: Forest)
      requires f.Entry? && todo.Entry? && t.Entry? && Pre(done) + Pre(todo) == Pre(f.rest) && Pre(t) == Pre(todo)
      requires Suffix(f.rest, todo) && Suffix(todo.rest, t.rest)
      ensures Pre(Concat(done, First(t))) + Pre(t.rest) == Pre(f.rest) && Suffix(f.rest, t.rest)
      ensures Concat(done, First(t)).Entry? && Last(Concat(done, First(t))) == t.id
    {
      MoveFirst(done, t);
      SuffixRest(f.rest, todo, t.rest);
    }

    lemma AdoptedPrompted(done: Forest, t: Forest)
      requires t.Entry? && KidsPrompted(prompted, done) && ParentsPrompted(prompted, t.kids)
      ensures KidsPrompted(prompted, Concat(done, First(t)))
    {
      PromptedConcat(prompted, done, First(t));
    }

    /** The first half of an adoption: the sibling m is finalized. */
    method AdoptFinalize(p: nat, m: nat, ghost s0: MenuState, ghost par: Option<nat>, ghost f: Forest,
                         ghost done: Forest, ghost todo: Forest) returns (ghost t: Forest)
      requires Adopting(s0, State(), Some(m), p, par, f, done, todo) && todo.Entry?
      requires Distinct(todo) && Accepts(dep, visible, m, p)
      modifies this
      ensures t.Entry? && t.id == m && Pre(t) == Pre(todo) && Suffix(todo.rest, t.rest)
      ensures ParentsPrompted(prompted, t.kids)
      ensures Seg(K(), Ptr(next, p), Some(m), Some(p), done) && Seg(K(), Some(m), None, par, t)
      ensures Ptr(list, p) == None && Ptr(parent, p) == par
      ensures Kept(s0, State(), f, Concat(done, First(t)))
      ensures AbsorbProgress(p, f.rest, prompted, Decided(dep, visible), Concat(done, First(t)), t.rest)
      ensures HandedDown(s0, State(), f.rest, t.rest)
      decreases Count(f), 0, 0
    {
      ghost var s1 := State();
      AdoptingParts(s0, s1, Some(m), p, par, f, done, todo);
      t := Finalize(m, todo, par);
      AfterFinalize(s0, s1, State(), p, m, par, f, done, todo, t);
      SiblingShape(s1, State(), p, f.rest, done, todo, t);
      HandedDownThen(s0, s1, State(), f.rest, todo, t.rest);
    }

    /** One adoption: the sibling m is finalized and gets the parent p. */
    method AdoptOne(p: nat, m: nat, ghost s0: MenuState, ghost par: Option<nat>, ghost f: Forest,
                    ghost done: Forest, ghost todo: Forest) returns (ghost t: Forest)
      requires Adopting(s0, State(), Some(m), p, par, f, done, todo) && todo.Entry?
      requires Distinct(todo) && Accepts(dep, visible, m, p)
      modifies this
      ensures t.Entry? && Count(t.rest) < Count(todo)
      ensures Adopting(s0, State(), Ptr(next, m), p, par, f, Concat(done, First(t)), t.rest)
      ensures Concat(done, First(t)).Entry? && Last(Concat(done, First(t))) == m
      decreases Count(f), 0, 1
    {
      ghost var s1 := State();
      t := AdoptFinalize(p, m, s0, par, f, done, todo);
      AdoptingParts(s0, s1, Some(m), p, par, f, done, todo);
      AdoptedApart(p, f, done, todo, t);
      ghost var s2 := State();
      AdoptLink(p, m, par, done, t);
      assert {m} <= Ids(f);
      KeptRelink(s0, s2, State(), f, Concat(done, First(t)), Concat(done, First(t)));
      AdoptedNext(s0, s1, State(), p, m, par, f, done, todo, t);
    }

    lemma AdoptedApart(p: nat, f: Forest, done: Forest, todo: Forest, t: Forest)
      requires Distinct(todo) && Ids(done) !! Ids(todo) && Ids(todo) <= Ids(f) && p !in Ids(todo)
      requires t.Entry? && Pre(t) == Pre(todo)
      ensures Distinct(t) && Ids(done) !! Ids(t) && p !in Ids(t) && t.id in Ids(f)
    {
      SamePre(todo, t);
      assert t.id in Ids(t);
    }

    lemma AdoptedNext(s0: MenuState, s1: MenuState, s3: MenuState, p: nat, m: nat, par: Option<nat>, f: Forest,
                      done: Forest, todo: Forest, t: Forest)
      requires Adopting(s0, s1, Some(m), p, par, f, done, todo) && todo.Entry?
      requires t.Entry? && t.id == m && Pre(t) == Pre(todo) && Suffix(todo.rest, t.rest)
               && ParentsPrompted(prompted, t.kids)
      requires Seg(s3.k, Ptr(s3.k.next, p), Ptr(s3.k.next, m), Some(p), Concat(done, First(t)))
      requires Seg(s3.k, Ptr(s3.k.next, m), None, par, t.rest)
      requires Ptr(s3.k.list, p) == None && Ptr(s3.k.parent, p) == par
      requires Kept(s0, s3, f, Concat(done, First(t)))
      requires AbsorbProgress(p, f.rest, prompted, Decided(s3.dep, s3.visible), Concat(done, First(t)), t.rest)
      requires HandedDown(s0, s3, f.rest, t.rest)
      ensures Adopting(s0, s3, Ptr(s3.k.next, m), p, par, f, Concat(done, First(t)), t.rest)
      ensures Concat(done, First(t)).Entry? && Last(Concat(done, First(t))) == m && Count(t.rest) < Count(todo)
    {
      AdoptedChain(f, done, todo, t);
      AdoptedPrompted(done, t);
      SamePre(todo, t);
      MoveFirst(done, t);
    }

    /** The second half: the finalized sibling m gets the parent p. */
    method AdoptLink(p: nat, m: nat, ghost par: Option<nat>, ghost done: Forest, ghost t: Forest)
      requires t.Entry? && t.id == m && Distinct(t) && Ids(done) !! Ids(t) && p !in Ids(t)
      requires Seg(K(), Ptr(next, p), Some(m), Some(p), done) && Seg(K(), Some(m), None, par, t)
      modifies this`parent
      ensures State() == old(State()).(k := K())
      ensures OnlyChanged(old(K()), K(), {m}) && SameAt(old(K()), K(), p)
      ensures Seg(K(), Ptr(next, p), Ptr(next, m), Some(p), Concat(done, First(t)))
      ensures Seg(K(), Ptr(next, m), None, par, t.rest)
    {
      ghost var k := K();
      parent := parent[m := p];
      AfterReparent(k, K(), p, m, par, done, t);
    }

    /** The branch for an entry with a symbol and without children: the following siblings that
        depend on it are finalized and become its children. */
    method AdoptSiblings(p: nat, ghost f: Forest, ghost par: Option<nat>) returns (ghost f': Forest)
      requires f.Entry? && f.id == p && f.kids.Empty? && p in sym
      requires Seg(K(), Some(p), None, par, f) && Distinct(f)
      modifies this
      ensures f'.Entry? && f'.id == p && Seg(K(), Some(p), None, par, f') && Pre(f') == Pre(f)
      ensures KidsPrompted(prompted, f'.kids) && Suffix(f.rest, f'.rest)
      ensures IsAbsorbed(p, f.rest, prompted, Decided(dep, visible), f'.kids, f'.rest)
      ensures HandedDown(old(State()), State(), f, f'.rest)
      ensures Kept(old(State()), State(), f, f'.kids)
      decreases Count(f), 0, 3
    {
      ghost var s0 := State();
      AdoptingStart(p, par, f);
      var menu, last;
      ghost var done, todo;
      menu, last, done, todo := AdoptWhile(p, f, par);
      AdoptingResult(s0, State(), menu, p, par, f, done, todo);
      if last.Some? {
        Relink(p, last.value, menu, s0, par, f, done, todo);
      }
      f' := Entry(p, done, todo);
    }

    lemma AdoptingResult(s0: MenuState, s: MenuState, menu: Option<nat>, p: nat, par: Option<nat>,
                         f: Forest, done: Forest, todo: Forest)
      requires Adopting(s0, s, menu, p, par, f, done, todo)
      ensures Pre(Entry(p, done, todo)) == Pre(f)
      ensures KidsPrompted(prompted, done) && Suffix(f.rest, todo) && Kept(s0, s, f, done)
      ensures HandedDown(s0, s, f, todo)
      ensures done.Empty? ==> Seg(s.k, Some(p), None, par, Entry(p, done, todo))
    {
      RegroupPre(f, done, todo);
    }

    lemma RegroupPre(f: Forest, done: Forest, todo: Forest)
      requires f.Entry? && f.kids.Empty? && Pre(done) + Pre(todo) == Pre(f.rest)
      ensures Pre(Entry(f.id, done, todo)) == Pre(f)
    {
      assert [f.id] + (Pre(done) + Pre(todo)) == [f.id] + Pre(done) + Pre(todo);
      assert [f.id] + [] + Pre(f.rest) == [f.id] + Pre(f.rest);
    }

    lemma AdoptingStart(p: nat, par: Option<nat>, f: Forest)
      requires f.Entry? && f.id == p && f.kids.Empty?
      requires Seg(K(), Some(p), None, par, f) && Distinct(f)
      ensures Adopting(State(), State(), Ptr(next, p), p, par, f, Empty, f.rest)
    {
      KeptStart(State(), f);
      AbsorbStart(p, f.rest, prompted, Decided(dep, visible));
      HandedDownStart(State(), f.rest);
    }

    /** Its loop: siblings are adopted up to the first that does not pass the test. */
    method AdoptWhile(p: nat, ghost f: Forest, ghost par: Option<nat>)
      returns (menu: Option<nat>, last: Option<nat>, ghost done: Forest, ghost todo: Forest)
      requires f.Entry? && Adopting(State(), State(), Ptr(next, p), p, par, f, Empty, f.rest) && Distinct(f) && p in sym
      modifies this
      ensures Adopting(old(State()), State(), menu, p, par, f, done, todo)
      ensures last == if done.Entry? then Some(Last(done)) else None
      ensures IsAbsorbed(p, f.rest, prompted, Decided(dep, visible), done, todo)
      decreases Count(f), 0, 2
    {
      menu, last := Ptr(next, p), None;
      ghost var s0 := State();
      done, todo := Empty, f.rest;
      while menu.Some?
        invariant Adopting(s0, State(), menu, p, par, f, done, todo)
        invariant last == if done.Entry? then Some(Last(done)) else None
        decreases Count(todo)
      {
        var m := menu.value;
        AdoptingParts(s0, State(), Some(m), p, par, f, done, todo);
        var adopts := AdoptionTest(p, m);
        if !adopts {
          assert m == todo.id;
          break;
        }
        ghost var t := AdoptOne(p, m, s0, par, f, done, todo);
        done, todo := Concat(done, First(t)), t.rest;
        last := Some(m);
        menu := Ptr(next, m);
      }
      AbsorbEnd(p, f.rest, prompted, Decided(dep, visible), done, todo);
    }

    lemma Relinked(k1: Links, k2: Links, p: nat, menu: Option<nat>, par: Option<nat>, done: Forest, todo: Forest)
      requires Distinct(done) && Ids(done) !! Ids(todo) && p !in Ids(done) && p !in Ids(todo)
      requires done.Entry? && Seg(k1, Ptr(k1.next, p), menu, Some(p), done) && Seg(k1, menu, None, par, todo)
      requires Ptr(k1.parent, p) == par && k2.parent == k1.parent
      requires k2.list == SetPtr(k1.list, p, Ptr(k1.next, p))
      requires k2.next == SetPtr(SetPtr(k1.next, p, Ptr(k1.next, Last(done))), Last(done), None)
      ensures Seg(k2, Some(p), None, par, Entry(p, done, todo))
      ensures OnlyChanged(k1, k2, {p, Last(done)})
    {
      LastInIds(done);
      assert p != Last(done);
      SegLastNext(k1, Ptr(k1.next, p), menu, Some(p), done);
      assert Ptr(k2.next, p) == menu && Ptr(k2.list, p) == Ptr(k1.next, p);
      RelinkedDone(k1, k2, p, menu, done);
      SegFrame(k1, k2, menu, None, par, todo);
    }

    lemma RelinkedDone(k1: Links, k2: Links, p: nat, menu: Option<nat>, done: Forest)
      requires done.Entry? && Distinct(done) && p !in Ids(done) && Seg(k1, Ptr(k1.next, p), menu, Some(p), done)
      requires k2.parent == k1.parent && k2.list == SetPtr(k1.list, p, Ptr(k1.next, p))
      requires k2.next == SetPtr(SetPtr(k1.next, p, Ptr(k1.next, Last(done))), Last(done), None)
      ensures Seg(k2, Ptr(k1.next, p), None, Some(p), done)
    {
      LastInIds(done);
      SegReend(k1, k2, Ptr(k1.next, p), menu, None, Some(p), done);
    }

    /** The adopted siblings become the child list of p. */
    method Relink(p: nat, last: nat, ghost menu: Option<nat>, ghost s0: MenuState, ghost par: Option<nat>,
                  ghost f: Forest, ghost done: Forest, ghost todo: Forest)
      requires Adopting(s0, State(), menu, p, par, f, done, todo) && done.Entry? && last == Last(done)
      modifies this`list, this`next
      ensures Seg(K(), Some(p), None, par, Entry(p, done, todo))
      ensures Kept(s0, State(), f, done)
    {
      ghost var s1 := State();
      AdoptingParts(s0, s1, menu, p, par, f, done, todo);
      LastInIds(done);
      list := SetPtr(list, p, Ptr(next, p));
      next := SetPtr(next, p, Ptr(next, last));
      next := SetPtr(next, last, None);
      Relinked(s1.k, K(), p, menu, par, done, todo);
      KeptRelink(s0, s1, State(), f, done, done);
    }

    /** The branch for an entry that has children already. */
    method FinalizeListed(p: nat, ghost f: Forest, ghost par: Option<nat>) returns (ghost f': Forest)
      requires f.Entry? && f.id == p && p in list && Seg(K(), Some(p), None, par, f) && Distinct(f)
      modifies this
      ensures f'.Entry? && f'.id == p && Seg(K(), Some(p), None, par, f') && Pre(f') == Pre(f)
      ensures KidsPrompted(prompted, f'.kids) && f'.rest == f.rest
      ensures f.kids.Entry? && ChainProgress(f.kids, prompted, Decided(dep, visible), f'.kids, Empty)
      ensures HandedDown(old(State()), State(), f, f.rest)
      ensures Kept(old(State()), State(), f, f'.kids)
      decreases Count(f), 0
    {
      ghost var s0 := State();
      SpreadDependencies(p, f.kids);
      ghost var s1 := State();
      ghost var kids := FinalizeKids(p, f.kids);
      f' := Entry(p, kids, f.rest);
      SamePre(f.kids, kids);
      assert SameAt(s1.k, K(), p);
      SegFrame(s1.k, K(), Ptr(s1.k.next, p), None, par, f.rest);
      KeptListed(s0, s1, State(), f, kids);
      HandedDownListed(s0, s1, State(), f, kids);
    }

    lemma HandedDownListed(s0: MenuState, s1: MenuState, s2: MenuState, f: Forest, kids: Forest)
      requires f.Entry? && Distinct(f) && Kept(s1, s2, f.kids, kids)
      requires DataOnly(s0.dep, s1.dep, TopIds(f.kids)) && DataOnly(s0.visible, s1.visible, TopIds(f.kids))
      requires AllPassed(ParentCondition(s0.dep, s0.visible, f.id), s0.dep, s0.visible, s1.dep, s1.visible,
               TopIds(f.kids))
      requires HandedDown(s1, s2, f.kids, Empty)
      ensures HandedDown(s0, s2, f, f.rest)
    {
      TopInIds(f.kids);
      SameOutside(s0, s1, s2, TopIds(f.kids), Ids(f.kids) - TopIds(f.kids), {f.id} + Ids(f.rest));
      SameOutside(s0, s1, s1, TopIds(f.kids), {}, {f.id} + Ids(f.kids) - TopIds(f.kids));
      SameOutside(s1, s2, s2, Ids(f.kids) - TopIds(f.kids), {}, {f.id} + TopIds(f.kids));
      SuffixEmpty(f.kids);
      InheritedFrame(s1.dep, s1.visible, s0.dep, s0.visible, s2.dep, s2.visible, s2.dep, s2.visible, f.kids, Empty);
      assert SameData(s0.dep, s1.dep, f.id) && SameData(s0.visible, s1.visible, f.id);
      PassedFrame(s0.dep, s0.visible, s0.dep, s0.visible, s1.dep, s1.visible, s2.dep, s2.visible, f.id, TopIds(f.kids));
    }

    lemma SameOutside(s0: MenuState, s1: MenuState, s2: MenuState, a: set<nat>, b: set<nat>, ids: set<nat>)
      requires DataOnly(s0.dep, s1.dep, a) && DataOnly(s0.visible, s1.visible, a)
      requires DataOnly(s1.dep, s2.dep, b) && DataOnly(s1.visible, s2.visible, b) && ids !! a + b
      ensures SameExprs(s0.dep, s0.visible, s2.dep, s2.visible, ids)
    {
      forall i | i in ids ensures SameData(s0.dep, s2.dep, i) && SameData(s0.visible, s2.visible, i) {
        assert SameData(s0.dep, s1.dep, i) && SameData(s1.dep, s2.dep, i);
        assert SameData(s0.visible, s1.visible, i) && SameData(s1.visible, s2.visible, i);
      }
    }

    lemma KeptListed(s0: MenuState, s1: MenuState, s2: MenuState, f: Forest, kids: Forest)
      requires f.Entry? && Distinct(f)
      requires s1 == s0.(dep := s1.dep, visible := s1.visible)
      requires DataOnly(s0.dep, s1.dep, TopIds(f.kids)) && DataOnly(s0.visible, s1.visible, TopIds(f.kids))
      requires Kept(s1, s2, f.kids, kids)
      ensures Kept(s0, s2, f, kids)
    {
      TopInIds(f.kids);
      TopInIds(f.rest);
      forall i | i !in Ids(f) - TopIds(f) ensures SameData(s0.dep, s2.dep, i) && SameData(s0.visible, s2.visible, i) {
        assert i !in Ids(f.kids);
        assert SameData(s0.dep, s1.dep, i) && SameData(s1.dep, s2.dep, i);
        assert SameData(s0.visible, s1.visible, i) && SameData(s1.visible, s2.visible, i);
      }
    }

    /** f1 is f after its first entry got its children, before these give away theirs. */
    ghost predicate Grown(f: Forest, f1: Forest, a: Decisions)
      requires f.Entry? && f1.Entry?
    {
      if f.kids.Entry? then f1.rest == f.rest && ChainProgress(f.kids, prompted, a, f1.kids, Empty)
      else IsAbsorbed(f.id, f.rest, prompted, a, f1.kids, f1.rest)
    }

    /** Its two branches, before the hoisting. */
    method FinalizeBelow(p: nat, ghost f: Forest, ghost par: Option<nat>) returns (ghost f1: Forest)
      requires f.Entry? && f.id == p && Seg(K(), Some(p), None, par, f) && Distinct(f)
      modifies this
      ensures f1.Entry? && f1.id == p && Seg(K(), Some(p), None, par, f1) && Pre(f1) == Pre(f)
      ensures KidsPrompted(prompted, f1.kids) && Suffix(f.rest, f1.rest)
      ensures Grown(f, f1, Decided(dep, visible)) && HandedDown(old(State()), State(), f, f1.rest)
      ensures Kept(old(State()), State(), f, f1.kids)
      decreases Count(f), 1
    {
      if p in list {
        f1 := FinalizeListed(p, f, par);
      } else if p in sym {
        f1 := AdoptSiblings(p, f, par);
      } else {
        f1 := f;
        KeptStart(State(), f);
        NotAbsorbed(p, f.rest);
        HandedDownLeaf(State(), f);
      }
    }

    lemma HandedDownLeaf(s: MenuState, f: Forest)
      requires f.Entry? && f.kids.Empty?
      ensures HandedDown(s, s, f, f.rest)
    {
    }

    /** menu_finalize.  The order of the entries in the file is the order of the result, whose shape
        is the one the final expressions decide; every entry of the finished part has been finalized
        exactly once, and entries with children have a prompt. */
    method Finalize(p: nat, ghost f: Forest, ghost par: Option<nat>) returns (ghost f': Forest)
      requires f.Entry? && f.id == p && Seg(K(), Some(p), None, par, f) && Distinct(f)
      modifies this
      ensures f'.Entry? && f'.id == p && Seg(K(), Some(p), None, par, f') && Pre(f') == Pre(f)
      ensures ParentsPrompted(prompted, f'.kids) && Suffix(f.rest, f'.rest)
      ensures IsShaped(f, prompted, Decided(dep, visible), f') && HandedDown(old(State()), State(), f, f'.rest)
      ensures Kept(old(State()), State(), f, First(f'))
      decreases Count(f), 2
    {
      ghost var s0 := State();
      log := log + [p];
      ghost var s1 := State();
      ghost var f1 := FinalizeBelow(p, f, par);
      ghost var s2 := State();
      FinalizedParts(f, f1);
      ghost var kids := Hoist(p, f1.kids);
      f' := Entry(p, kids, f1.rest);
      AfterHoist(s2, State(), p, par, f, f1, kids);
      KeptFinal(s0, s1, s2, State(), p, f, f1, f');
      FinalShape(f, f1, f', Decided(dep, visible));
    }

    lemma NotAbsorbed(p: nat, rest: Forest)
      requires p !in sym
      ensures IsAbsorbed(p, rest, prompted, Decided(dep, visible), Empty, rest)
    {
      AbsorbStart(p, rest, prompted, Decided(dep, visible));
      AbsorbEnd(p, rest, prompted, Decided(dep, visible), Empty, rest);
    }

    lemma FinalShape(f: Forest, f1: Forest, f': Forest, a: Decisions)
      requires f.Entry? && f1.Entry? && f'.Entry? && Pre(f'.kids) == Pre(f1.kids)
      requires f' == Entry(f.id, HoistAll(prompted, f1.kids), f1.rest)
      requires Grown(f, f1, a)
      ensures IsShaped(f, prompted, a, f')
    {
      SamePre(f'.kids, f1.kids);
      if f.kids.Entry? {
        ShapedListed(f, prompted, a, f1.kids, f'.kids);
      } else {
        ShapedAbsorbed(f, prompted, a, f1.kids, f1.rest, f'.kids);
      }
    }

    lemma FinalizedParts(f: Forest, f1: Forest)
      requires f.Entry? && f1.Entry? && Pre(f1) == Pre(f) && Distinct(f)
      ensures Distinct(f1) && Ids(f1) == Ids(f)
    {
      SamePre(f, f1);
    }

    lemma AfterHoist(s2: MenuState, s3: MenuState, p: nat, par: Option<nat>, f: Forest, f1: Forest, kids: Forest)
      requires f1.Entry? && f1.id == p && Distinct(f1) && Seg(s2.k, Some(p), None, par, f1)
      requires OnlyChanged(s2.k, s3.k, Ids(f1.kids)) && Pre(kids) == Pre(f1.kids)
      requires Seg(s3.k, Ptr(s3.k.list, p), None, Some(p), kids)
      ensures Seg(s3.k, Some(p), None, par, Entry(p, kids, f1.rest))
      ensures Pre(Entry(p, kids, f1.rest)) == Pre(f1)
    {
      assert SameAt(s2.k, s3.k, p);
      SegFrame(s2.k, s3.k, Ptr(s2.k.next, p), None, par, f1.rest);
    }

    lemma KeptFinal(s0: MenuState, s1: MenuState, s2: MenuState, s3: MenuState, p: nat, f: Forest, f1: Forest,
                    f': Forest)
      requires f.Entry? && f1.Entry? && f'.Entry? && f1.id == p && f'.id == p
      requires Ids(f1) == Ids(f) && Pre(f'.kids) == Pre(f1.kids)
      requires s1 == s0.(log := s0.log + [p])
      requires Kept(s1, s2, f, f1.kids)
      requires s3 == s2.(k := s3.k) && OnlyChanged(s2.k, s3.k, Ids(f1.kids))
      ensures Kept(s0, s3, f, First(f'))
    {
      SamePre(f1.kids, f'.kids);
      KeptRelink(s1, s2, s3, f, f1.kids, f'.kids);
      NoRest(First(f'));
      KeptLogged(s0, s1, s3, p, f, f'.kids, First(f'));
    }

    lemma KeptLogged(s0: MenuState, s1: MenuState, s2: MenuState, p: nat, f: Forest, finished: Forest,
                     finished': Forest)
      requires s1 == s0.(log := s0.log + [p]) && Kept(s1, s2, f, finished)
      requires Pre(finished') == [p] + Pre(finished)
      ensures Kept(s0, s2, f, finished')
    {
    }

    /** f is the whole menu: the root entry, without siblings or parent, and what is below it. */
    ghost predicate Rooted(root: nat, f: Forest)
      reads this
    {
      f.Entry? && f.id == root && f.rest.Empty? && Distinct(f) && Seg(K(), Some(root), None, None, f)
    }

    /** menu_finalize(&rootmenu): nothing is lost, duplicated or reordered, every entry is finalized
        exactly once, the pointers stand for a tree again, of the shape that the final expressions
        decide, and for these every adoption is sound. */
    method FinalizeRoot(root: nat, ghost f: Forest) returns (ghost f': Forest)
      requires Rooted(root, f) && log == []
      modifies this
      ensures Rooted(root, f') && Pre(f') == Pre(f)
      ensures f' == Shaped(f, prompted, Decided(dep, visible))
      ensures Inherited(old(dep), old(visible), dep, visible, f, Empty)
      ensures DataOnly(old(dep), dep, Ids(f) - {root}) && DataOnly(old(visible), visible, Ids(f) - {root})
      ensures multiset(log) == multiset(Pre(f)) && NoDup(log)
      ensures ParentsPrompted(prompted, f'.kids)
      ensures TidyAt(prompted, old(dep), old(visible), root, false) ==> AcceptsSoundly(dep, visible, Ids(f))
    {
      ghost var s0 := State();
      f' := Finalize(root, f, None);
      RootSound(s0, State(), f);
      RootResult(s0, State(), f, f');
    }

    lemma RootSound(s0: MenuState, s1: MenuState, f: Forest)
      requires f.Entry? && f.rest.Empty?
      requires Inherited(s0.dep, s0.visible, s1.dep, s1.visible, f, Empty)
      requires DataOnly(s0.dep, s1.dep, Ids(f) - TopIds(f)) && DataOnly(s0.visible, s1.visible, Ids(f) - TopIds(f))
      ensures TidyAt(prompted, s0.dep, s0.visible, f.id, false) ==> AcceptsSoundly(s1.dep, s1.visible, Ids(f))
    {
      assert SameData(s0.dep, s1.dep, f.id) && SameData(s0.visible, s1.visible, f.id);
      if TidyAt(prompted, s0.dep, s0.visible, f.id, false) {
        InheritedSound(s0.dep, s0.visible, s1.dep, s1.visible, f);
      }
    }

    lemma ShapedBy(f: Forest, a: Decisions, f': Forest)
      requires f.Entry? && f'.Entry? && IsShaped(f, prompted, a, f')
      ensures f' == Shaped(f, prompted, a)
    {
      assert Agree(a, a, Asked(f'));
    }

    lemma RootResult(s0: MenuState, s1: MenuState, f: Forest, f': Forest)
      requires f.Entry? && f.rest.Empty? && Distinct(f) && s0.log == []
      requires f'.Entry? && f'.rest.Empty? && Pre(f') == Pre(f)
      requires Kept(s0, s1, f, First(f')) && IsShaped(f, prompted, Decided(s1.dep, s1.visible), f')
      ensures Distinct(f') && f' == Shaped(f, prompted, Decided(s1.dep, s1.visible))
      ensures DataOnly(s0.dep, s1.dep, Ids(f) - {f.id}) && DataOnly(s0.visible, s1.visible, Ids(f) - {f.id})
      ensures multiset(s1.log) == multiset(Pre(f)) && NoDup(s1.log)
    {
      ShapedBy(f, Decided(s1.dep, s1.visible), f');
      SamePre(f, f');
      DistinctPre(f);
      assert First(f') == f';
      NoDupMultiset(Pre(f), s1.log);
    }

    /** There is only one result these conditions allow: any two final states that meet them have
        the same expressions and the same menu. */
    lemma ResultUnique(root: nat, f: Forest, dep0: map<nat, Expr>, visible0: map<nat, Expr>,
                       dep1: map<nat, Expr>, visible1: map<nat, Expr>, dep2: map<nat, Expr>, visible2: map<nat, Expr>)
      requires f.Entry? && f.id == root && f.rest.Empty?
      requires Inherited(dep0, visible0, dep1, visible1, f, Empty)
               && Inherited(dep0, visible0, dep2, visible2, f, Empty)
      requires DataOnly(dep0, dep1, Ids(f) - {root}) && DataOnly(visible0, visible1, Ids(f) - {root})
      requires DataOnly(dep0, dep2, Ids(f) - {root}) && DataOnly(visible0, visible2, Ids(f) - {root})
      ensures SameExprs(dep1, visible1, dep2, visible2, Ids(f))
      ensures Shaped(f, prompted, Decided(dep1, visible1)) == Shaped(f, prompted, Decided(dep2, visible2))
    {
      assert SameData(dep0, dep1, root) && SameData(dep0, dep2, root);
      assert SameData(visible0, visible1, root) && SameData(visible0, visible2, root);
      InheritedUnique(dep0, visible0, dep1, visible1, dep2, visible2, f);
      SameAccepts(dep1, visible1, dep2, visible2, Ids(f));
      ShapedAgree(f, prompted, Decided(dep1, visible1), Decided(dep2, visible2), Ids(f));
    }

    /** The loop of conf_write visits all entries below the root in file order, without a stack. */
    method WalkEntries(root: nat, ghost f: Forest) returns (visited: seq<nat>)
      requires Rooted(root, f)
      ensures Pre(f) == [root] + visited
    {
      visited := [];
      var menu := Ptr(list, root);
      ghost var k, todo, ctx, par, kids := K(), f.kids, Top, root, f.kids;
      WalkStart(k, f);
      NoRest(f);
      while menu.Some?
        invariant Walking(k, root, Pre(kids), visited, menu, par, todo, ctx)
        decreases |Pre(kids)| - |visited|
      {
        var m := menu.value;
        if Ptr(list, m).Some? {
          WalkDown(k, root, Pre(kids), visited, m, par, todo, ctx);
          visited, menu := visited + [m], Ptr(list, m);
          todo, par, ctx := todo.kids, m, In(par, todo.rest, ctx);
        } else if Ptr(next, m).Some? {
          WalkNext(k, root, Pre(kids), visited, m, par, todo, ctx);
          visited, menu := visited + [m], Ptr(next, m);
          todo := todo.rest;
        } else {
          WalkUp(k, root, Pre(kids), visited, m, par, todo, ctx);
          visited := visited + [m];
          menu, par, todo, ctx := Climb(root, m, Pre(kids), visited, par, ctx);
        }
      }
    }

    /** Its inner loop: up to the next entry that has a successor. */
    method Climb(root: nat, m: nat, ghost all: seq<nat>, ghost visited: seq<nat>, ghost par: nat, ghost ctx: Ctx)
      returns (menu: Option<nat>, ghost par': nat, ghost todo': Forest, ghost ctx': Ctx)
      requires Climbing(K(), root, all, visited, Ptr(parent, m), par, ctx)
      ensures Walking(K(), root, all, visited, menu, par', todo', ctx')
    {
      menu, par', todo', ctx' := Ptr(parent, m), par, Empty, ctx;
      while menu.Some?
        invariant Climbing(K(), root, all, visited, menu, par', ctx')
        decreases menu.Some?, ctx'
      {
        ClimbStep(K(), root, all, visited, menu.value, ctx');
        if Ptr(next, menu.value).Some? {
          menu := Ptr(next, menu.value);
          par', todo', ctx' := ctx'.up, ctx'.rest, ctx'.outer;
          break;
        }
        menu := Ptr(parent, menu.value);
        if ctx'.In? {
          par', ctx' := ctx'.up, ctx'.outer;
        }
      }
    }
  }

  /** Where the walk is: in the child list of an entry, with the rest of the list of that entry
      still to come, and so on up to the root. */
  datatype Ctx = Top | In(up: nat, rest: Forest, outer: Ctx)

  /** What is still to come after the current list. */
  function Remaining(c: Ctx): seq<nat> {
    match c
    case Top => []
    case In(_, rest, outer) => Pre(rest) + Remaining(outer)
  }

  ghost predicate Context(k: Links, root: nat, par: nat, c: Ctx)
    decreases c
  {
    match c
    case Top => par == root && Ptr(k.next, root) == None && Ptr(k.parent, root) == None
    case In(up, rest, outer) =>
      Ptr(k.parent, par) == Some(up) && Seg(k, Ptr(k.next, par), None, Some(up), rest) && Context(k, root, up, outer)
  }

  /** The walk is at menu, the first entry of the chain todo below par; all is the whole walk. */
  ghost predicate Walking(k: Links, root: nat, all: seq<nat>, visited: seq<nat>, menu: Option<nat>, par: nat,
                          todo: Forest, c: Ctx) {
    if menu.None? then visited == all
    else todo.Entry? && Seg(k, menu, None, Some(par), todo) && Context(k, root, par, c)
         && visited + (Pre(todo) + Remaining(c)) == all
  }

  /** The walk has left the children of menu. */
  ghost predicate Climbing(k: Links, root: nat, all: seq<nat>, visited: seq<nat>, menu: Option<nat>, par: nat, c: Ctx) {
    if menu.None? then visited == all
    else menu.value == par && Context(k, root, par, c) && visited + Remaining(c) == all
  }

  lemma WalkStart(k: Links, f: Forest)
    requires f.Entry? && f.rest.Empty? && Seg(k, Some(f.id), None, None, f)
    ensures Walking(k, f.id, Pre(f.kids), [], Ptr(k.list, f.id), f.id, f.kids, Top)
  {
    assert Seg(k, Ptr(k.next, f.id), None, None, f.rest);
    assert [] + (Pre(f.kids) + []) == Pre(f.kids);
  }

  /** The current entry, then its children, its successors and what comes after them. */
  lemma WalkOrder(visited: seq<nat>, todo: Forest, c: Ctx)
    requires todo.Entry?
    ensures visited + (Pre(todo) + Remaining(c))
         == (visited + [todo.id]) + (Pre(todo.kids) + (Pre(todo.rest) + Remaining(c)))
  {
    Regroup(visited, [todo.id], Pre(todo.kids), Pre(todo.rest), Remaining(c));
  }

  lemma Regroup(a: seq<nat>, b: seq<nat>, c: seq<nat>, d: seq<nat>, e: seq<nat>)
    ensures a + ((b + c + d) + e) == (a + b) + (c + (d + e))
  {
  }

  lemma WalkDown(k: Links, root: nat, all: seq<nat>, visited: seq<nat>, m: nat, par: nat, todo: Forest, c: Ctx)
    requires Walking(k, root, all, visited, Some(m), par, todo, c) && Ptr(k.list, m).Some?
    ensures Walking(k, root, all, visited + [m], Ptr(k.list, m), m, todo.kids, In(par, todo.rest, c))
    ensures |visited| < |all|
  {
    WalkOrder(visited, todo, c);
    SegSome(k, Ptr(k.list, m).value, Some(m), todo.kids);
  }

  lemma WalkNext(k: Links, root: nat, all: seq<nat>, visited: seq<nat>, m: nat, par: nat, todo: Forest, c: Ctx)
    requires Walking(k, root, all, visited, Some(m), par, todo, c) && Ptr(k.list, m).None? && Ptr(k.next, m).Some?
    ensures Walking(k, root, all, visited + [m], Ptr(k.next, m), par, todo.rest, c)
    ensures |visited| < |all|
  {
    WalkOrder(visited, todo, c);
    SegNone(k, None, Some(m), todo.kids);
    SegSome(k, Ptr(k.next, m).value, Some(par), todo.rest);
  }

  lemma WalkUp(k: Links, root: nat, all: seq<nat>, visited: seq<nat>, m: nat, par: nat, todo: Forest, c: Ctx)
    requires Walking(k, root, all, visited, Some(m), par, todo, c) && Ptr(k.list, m).None? && Ptr(k.next, m).None?
    ensures Climbing(k, root, all, visited + [m], Ptr(k.parent, m), par, c)
    ensures |visited| < |all|
  {
    WalkOrder(visited, todo, c);
    SegNone(k, None, Some(m), todo.kids);
    SegNone(k, None, Some(par), todo.rest);
  }

  lemma ClimbStep(k: Links, root: nat, all: seq<nat>, visited: seq<nat>, par: nat, c: Ctx)
    requires Climbing(k, root, all, visited, Some(par), par, c)
    ensures Ptr(k.next, par).Some? ==> c.In? && Walking(k, root, all, visited, Ptr(k.next, par), c.up, c.rest, c.outer)
    ensures Ptr(k.next, par).None? && c.In? ==> Climbing(k, root, all, visited, Ptr(k.parent, par), c.up, c.outer)
    ensures Ptr(k.next, par).None? && c.Top? ==> Ptr(k.parent, par).None? && visited == all
  {
    if c.In? && c.rest.Empty? {
      assert Remaining(c) == [] + Remaining(c.outer);
    }
  }

  lemma NoDupMultiset(a: seq<nat>, b: seq<nat>)
    requires NoDup(a) && multiset(a) == multiset(b)
    ensures NoDup(b)
  {
    NoDupCount(a);
    CountNoDup(b);
  }

  lemma {:induction false} NoDupCount(a: seq<nat>)
    requires NoDup(a)
    ensures forall x :: multiset(a)[x] <= 1
  {
    if a != [] {
      var l := a[..|a| - 1];
      NoDupCount(l);
      assert a == l + [a[|a| - 1]];
      assert a[|a| - 1] !in l;
    }
  }

  lemma {:induction false} CountNoDup(b: seq<nat>)
    requires forall x :: multiset(b)[x] <= 1
    ensures NoDup(b)
  {
    if b != [] {
      var l, z := b[..|b| - 1], b[|b| - 1];
      assert b == l + [z];
      forall x ensures multiset(l)[x] <= 1 && (x == z ==> multiset(l)[x] == 0) {
        assert multiset(b)[x] == multiset(l)[x] + multiset([z])[x];
      }
      CountNoDup(l);
      assert z !in l by { assert multiset(l)[z] == 0; }
      assert NoDup([z]);
      NoDupConcat(l, [z]);
    }
  }
}