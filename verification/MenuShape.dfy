/**
 The shape of the menu that menu_finalize of package/config/menu.c produces, as a function of the
 menu and of which entry accepts which other entry as its child.
 */
module MenuShape {
  import opened MenuForest

  /** Whether an entry (the first) passes the test for becoming a child of another (the second). */
  type Decisions = (nat, nat) -> bool

  /** The children of entries without a prompt become their successors. */
  function HoistAll(prompted: set<nat>, f: Forest): (r: Forest)
    ensures Count(r) == Count(f)
    decreases Count(f)
  {
    if f.Empty? then Empty
    else if f.kids.Entry? && f.id !in prompted then
      ConcatFacts(f.kids, f.rest);
      Entry(f.id, Empty, HoistAll(prompted, Concat(f.kids, f.rest)))
    else Entry(f.id, f.kids, HoistAll(prompted, f.rest))
  }

  /** An entry that need not give its children away stays as it is. */
  lemma HoistAllStep(prompted: set<nat>, done: Forest, todo: Forest)
    requires todo.Entry? && (todo.kids.Entry? ==> todo.id in prompted)
    ensures Concat(done, HoistAll(prompted, todo)) == Concat(Concat(done, First(todo)), HoistAll(prompted, todo.rest))
  {
    ConcatAssoc(done, First(todo), HoistAll(prompted, todo.rest));
  }

  datatype Split = Split(taken: Forest, left: Forest)

  /** A chain whose first entry is finalized: its children are, or it takes the following entries
      it accepts; then the children of entries without a prompt are moved up. */
  function Shaped(f: Forest, prompted: set<nat>, a: Decisions): (r: Forest)
    requires f.Entry?
    ensures r.Entry? && r.id == f.id && Count(r) == Count(f)
    decreases Count(f), 1
  {
    if f.kids.Entry? then Entry(f.id, HoistAll(prompted, ShapedChain(f.kids, prompted, a)), f.rest)
    else
      var s := Absorbed(f.id, f.rest, prompted, a);
      Entry(f.id, HoistAll(prompted, s.taken), s.left)
  }

  /** A chain whose entries are all finalized, one after the other. */
  function ShapedChain(f: Forest, prompted: set<nat>, a: Decisions): (r: Forest)
    ensures Count(r) == Count(f)
    decreases Count(f), 2
  {
    if f.Empty? then Empty
    else
      var t := Shaped(f, prompted, a);
      Entry(t.id, t.kids, ShapedChain(t.rest, prompted, a))
  }

  /** The entries p takes from the beginning of a chain, each finalized first, and what is left. */
  function Absorbed(p: nat, f: Forest, prompted: set<nat>, a: Decisions): (s: Split)
    ensures Count(s.taken) + Count(s.left) == Count(f)
    decreases Count(f), 2
  {
    if f.Entry? && a(f.id, p) then
      var t := Shaped(f, prompted, a);
      var s := Absorbed(p, t.rest, prompted, a);
      Split(Entry(t.id, t.kids, s.taken), s.left)
    else Split(Empty, f)
  }

  lemma MovedUpPre(f: Forest)
    requires f.Entry?
    ensures Pre(Entry(f.id, Empty, Concat(f.kids, f.rest))) == Pre(f)
  {
    ConcatFacts(f.kids, f.rest);
    Regrouped([f.id], Pre(f.kids), Pre(f.rest));
  }

  lemma Regrouped(a: seq<nat>, b: seq<nat>, c: seq<nat>)
    ensures a + [] + (b + c) == a + b + c
  {
  }

  lemma {:induction false} HoistAllPre(prompted: set<nat>, f: Forest)
    ensures Pre(HoistAll(prompted, f)) == Pre(f)
    decreases Count(f)
  {
    if f.Entry? {
      if f.kids.Entry? && f.id !in prompted {
        ConcatFacts(f.kids, f.rest);
        MovedUpPre(f);
        HoistAllPre(prompted, Concat(f.kids, f.rest));
      } else {
        HoistAllPre(prompted, f.rest);
      }
    }
  }

  /** Finalizing changes neither the order of the entries ... */
  lemma {:induction false} ShapedPre(f: Forest, prompted: set<nat>, a: Decisions)
    requires f.Entry?
    ensures Pre(Shaped(f, prompted, a)) == Pre(f)
    decreases Count(f), 1
  {
    if f.kids.Entry? {
      ShapedChainPre(f.kids, prompted, a);
      HoistAllPre(prompted, ShapedChain(f.kids, prompted, a));
    } else {
      var s := Absorbed(f.id, f.rest, prompted, a);
      AbsorbedPre(f.id, f.rest, prompted, a);
      HoistAllPre(prompted, s.taken);
      assert [f.id] + [] + (Pre(s.taken) + Pre(s.left)) == [f.id] + Pre(s.taken) + Pre(s.left);
    }
  }

  lemma {:induction false} ShapedChainPre(f: Forest, prompted: set<nat>, a: Decisions)
    ensures Pre(ShapedChain(f, prompted, a)) == Pre(f)
    decreases Count(f), 2
  {
    if f.Entry? {
      ShapedPre(f, prompted, a);
      ShapedChainPre(Shaped(f, prompted, a).rest, prompted, a);
    }
  }

  lemma {:induction false} AbsorbedPre(p: nat, f: Forest, prompted: set<nat>, a: Decisions)
    ensures Pre(Absorbed(p, f, prompted, a).taken) + Pre(Absorbed(p, f, prompted, a).left) == Pre(f)
    decreases Count(f), 2
  {
    if f.Entry? && a(f.id, p) {
      var t := Shaped(f, prompted, a);
      var s := Absorbed(p, t.rest, prompted, a);
      ShapedPre(f, prompted, a);
      AbsorbedPre(p, t.rest, prompted, a);
      PreTaken(t, s.taken, s.left);
    }
  }

  lemma PreTaken(t: Forest, taken: Forest, left: Forest)
    requires t.Entry? && Pre(taken) + Pre(left) == Pre(t.rest)
    ensures Pre(Entry(t.id, t.kids, taken)) + Pre(left) == Pre(t)
  {
    assert [t.id] + Pre(t.kids) + Pre(taken) + Pre(left) == [t.id] + Pre(t.kids) + (Pre(taken) + Pre(left));
  }

  /** ... nor does it depend on decisions about entries that are not in the menu. */
  lemma {:induction false} ShapedAgree(f: Forest, prompted: set<nat>, a: Decisions, b: Decisions, ids: set<nat>)
    requires f.Entry? && Ids(f) <= ids && Agree(a, b, ids)
    ensures Shaped(f, prompted, a) == Shaped(f, prompted, b)
    decreases Count(f), 1
  {
    if f.kids.Entry? {
      ShapedChainAgree(f.kids, prompted, a, b, ids);
    } else {
      AbsorbedAgree(f.id, f.rest, prompted, a, b, ids);
    }
  }

  lemma {:induction false} ShapedChainAgree(f: Forest, prompted: set<nat>, a: Decisions, b: Decisions, ids: set<nat>)
    requires Ids(f) <= ids && Agree(a, b, ids)
    ensures ShapedChain(f, prompted, a) == ShapedChain(f, prompted, b)
    decreases Count(f), 2
  {
    if f.Entry? {
      RestIds(f, prompted, a);
      ShapedAgree(f, prompted, a, b, ids);
      ShapedChainAgree(Shaped(f, prompted, a).rest, prompted, a, b, ids);
    }
  }

  lemma {:induction false} AbsorbedAgree(p: nat, f: Forest, prompted: set<nat>, a: Decisions, b: Decisions,
                                         ids: set<nat>)
    requires p in ids && Ids(f) <= ids && Agree(a, b, ids)
    ensures Absorbed(p, f, prompted, a) == Absorbed(p, f, prompted, b)
    decreases Count(f), 2
  {
    if f.Entry? && a(f.id, p) {
      RestIds(f, prompted, a);
      ShapedAgree(f, prompted, a, b, ids);
      AbsorbedAgree(p, Shaped(f, prompted, a).rest, prompted, a, b, ids);
    }
  }

  lemma RestIds(f: Forest, prompted: set<nat>, a: Decisions)
    requires f.Entry?
    ensures Ids(Shaped(f, prompted, a).rest) <= Ids(f)
  {
    ShapedPre(f, prompted, a);
    SamePre(f, Shaped(f, prompted, a));
  }

  /** With an entry of s, all that is below it is in s. */
  predicate KidsIn(s: set<nat>, f: Forest) {
    f.Entry? ==> (f.id in s ==> Ids(f.kids) <= s) && KidsIn(s, f.kids) && KidsIn(s, f.rest)
  }

  /** With an entry of s, every entry that it accepts is in s. */
  ghost predicate AcceptsIn(s: set<nat>, a: Decisions) {
    forall c, q :: q in s && a(c, q) ==> c in s
  }

  lemma {:induction false} KidsInConcat(s: set<nat>, f: Forest, g: Forest)
    ensures KidsIn(s, Concat(f, g)) <==> KidsIn(s, f) && KidsIn(s, g)
  {
    if f.Entry? {
      KidsInConcat(s, f.rest, g);
    }
  }

  lemma {:induction false} HoistAllKidsIn(s: set<nat>, prompted: set<nat>, f: Forest)
    requires KidsIn(s, f)
    ensures KidsIn(s, HoistAll(prompted, f)) && Ids(HoistAll(prompted, f)) == Ids(f)
    decreases Count(f)
  {
    HoistAllPre(prompted, f);
    SamePre(f, HoistAll(prompted, f));
    if f.Entry? {
      if f.kids.Entry? && f.id !in prompted {
        ConcatFacts(f.kids, f.rest);
        KidsInConcat(s, f.kids, f.rest);
        HoistAllKidsIn(s, prompted, Concat(f.kids, f.rest));
      } else {
        HoistAllKidsIn(s, prompted, f.rest);
      }
    }
  }

  /** An entry only gets below another one by a chain of memberships in the old menu and of
      acceptances: whatever set of entries is closed under both is closed under the new nesting. */
  lemma {:induction false} ShapedKidsIn(s: set<nat>, f: Forest, prompted: set<nat>, a: Decisions)
    requires f.Entry? && KidsIn(s, f) && AcceptsIn(s, a)
    ensures KidsIn(s, Shaped(f, prompted, a))
    decreases Count(f), 1
  {
    if f.kids.Entry? {
      ShapedChainKidsIn(s, f.kids, prompted, a);
      HoistAllKidsIn(s, prompted, ShapedChain(f.kids, prompted, a));
      ShapedChainPre(f.kids, prompted, a);
      SamePre(f.kids, ShapedChain(f.kids, prompted, a));
    } else {
      AbsorbedKidsIn(s, f.id, f.rest, prompted, a);
      HoistAllKidsIn(s, prompted, Absorbed(f.id, f.rest, prompted, a).taken);
    }
  }

  lemma {:induction false} ShapedChainKidsIn(s: set<nat>, f: Forest, prompted: set<nat>, a: Decisions)
    requires KidsIn(s, f) && AcceptsIn(s, a)
    ensures KidsIn(s, ShapedChain(f, prompted, a))
    decreases Count(f), 2
  {
    if f.Entry? {
      ShapedKidsIn(s, f, prompted, a);
      ShapedChainKidsIn(s, Shaped(f, prompted, a).rest, prompted, a);
    }
  }

  lemma {:induction false} AbsorbedKidsIn(s: set<nat>, p: nat, f: Forest, prompted: set<nat>, a: Decisions)
    requires KidsIn(s, f) && AcceptsIn(s, a)
    ensures var r := Absorbed(p, f, prompted, a);
      KidsIn(s, r.taken) && KidsIn(s, r.left) && (p in s ==> Ids(r.taken) <= s)
    decreases Count(f), 2
  {
    if f.Entry? && a(f.id, p) {
      ShapedKidsIn(s, f, prompted, a);
      AbsorbedKidsIn(s, p, Shaped(f, prompted, a).rest, prompted, a);
    }
  }

  /** The same decisions among these entries. */
  ghost predicate Agree(a: Decisions, b: Decisions, ids: set<nat>) {
    forall c, q :: c in ids && q in ids ==> a(c, q) == b(c, q)
  }

  lemma AgreeThen(a: Decisions, b: Decisions, c: Decisions, ids: set<nat>, more: set<nat>)
    requires Agree(a, b, ids) && Agree(b, c, more) && ids <= more
    ensures Agree(a, c, ids)
  {
  }

  /** The entries that have been asked when the first entry of f is finalized. */
  function Asked(f: Forest): set<nat>
    requires f.Entry?
  {
    Ids(First(f)) + TopIds(f.rest)
  }

  /** f' is f with its first entry finalized; no decision about other entries matters. */
  ghost predicate IsShaped(f: Forest, prompted: set<nat>, a: Decisions, f': Forest)
    requires f.Entry? && f'.Entry?
  {
    forall b: Decisions :: Agree(a, b, Asked(f')) ==> Shaped(f, prompted, b) == f'
  }

  /** In the middle of finalizing a chain. */
  ghost predicate ChainProgress(f: Forest, prompted: set<nat>, a: Decisions, done: Forest, todo: Forest) {
    forall b: Decisions :: Agree(a, b, Ids(done) + TopIds(todo))
      ==> ShapedChain(f, prompted, b) == Concat(done, ShapedChain(todo, prompted, b))
  }

  /** The top of a chain ends up in its finalized first entry or in the rest. */
  lemma TopStays(todo: Forest, t: Forest)
    requires todo.Entry? && t.Entry? && Distinct(todo) && Pre(t) == Pre(todo) && Suffix(todo.rest, t.rest)
    ensures TopIds(todo) <= Asked(t)
  {
    SamePre(todo, t);
    SuffixFacts(todo.rest, t.rest);
    TopInIds(todo);
    assert Ids(t) == Ids(First(t)) + Ids(t.rest);
  }

  lemma ChainStep(f: Forest, prompted: set<nat>, a: Decisions, a': Decisions, done: Forest, todo: Forest, t: Forest)
    requires ChainProgress(f, prompted, a, done, todo) && todo.Entry? && t.Entry?
    requires IsShaped(todo, prompted, a', t) && TopIds(todo) <= Asked(t)
    requires Agree(a, a', Ids(done) + TopIds(todo))
    ensures ChainProgress(f, prompted, a', Concat(done, First(t)), t.rest)
  {
    var done' := Concat(done, First(t));
    MoveFirst(done, t);
    forall b: Decisions | Agree(a', b, Ids(done') + TopIds(t.rest))
      ensures ShapedChain(f, prompted, b) == Concat(done', ShapedChain(t.rest, prompted, b))
    {
      AgreeThen(a, a', b, Ids(done) + TopIds(todo), Ids(done') + TopIds(t.rest));
      assert Agree(a', b, Asked(t));
      ConcatAssoc(done, First(t), ShapedChain(t.rest, prompted, b));
    }
  }

  function Onto(done: Forest, s: Split): Split {
    Split(Concat(done, s.taken), s.left)
  }

  /** In the middle of adopting. */
  ghost predicate AbsorbProgress(p: nat, f: Forest, prompted: set<nat>, a: Decisions, done: Forest, todo: Forest) {
    forall b: Decisions :: Agree(a, b, {p} + Ids(done) + TopIds(todo))
      ==> Absorbed(p, f, prompted, b) == Onto(done, Absorbed(p, todo, prompted, b))
  }

  lemma AbsorbStart(p: nat, f: Forest, prompted: set<nat>, a: Decisions)
    ensures AbsorbProgress(p, f, prompted, a, Empty, f)
  {
  }

  lemma AbsorbStep(p: nat, f: Forest, prompted: set<nat>, a: Decisions, a': Decisions, done: Forest, todo: Forest,
                   t: Forest)
    requires AbsorbProgress(p, f, prompted, a, done, todo) && todo.Entry? && t.Entry? && a(todo.id, p)
    requires IsShaped(todo, prompted, a', t) && TopIds(todo) <= Asked(t)
    requires Agree(a, a', {p} + Ids(done) + TopIds(todo))
    ensures AbsorbProgress(p, f, prompted, a', Concat(done, First(t)), t.rest)
  {
    var done' := Concat(done, First(t));
    MoveFirst(done, t);
    forall b: Decisions | Agree(a', b, {p} + Ids(done') + TopIds(t.rest))
      ensures Absorbed(p, f, prompted, b) == Onto(done', Absorbed(p, t.rest, prompted, b))
    {
      AgreeThen(a, a', b, {p} + Ids(done) + TopIds(todo), {p} + Ids(done') + TopIds(t.rest));
      assert Agree(a', b, Asked(t));
      assert b(todo.id, p);
      ConcatAssoc(done, First(t), Absorbed(p, t.rest, prompted, b).taken);
    }
  }

  /** p takes exactly the entries in done. */
  ghost predicate IsAbsorbed(p: nat, f: Forest, prompted: set<nat>, a: Decisions, done: Forest, todo: Forest) {
    forall b: Decisions :: Agree(a, b, {p} + Ids(done) + TopIds(todo))
      ==> Absorbed(p, f, prompted, b) == Split(done, todo)
  }

  lemma AbsorbEnd(p: nat, f: Forest, prompted: set<nat>, a: Decisions, done: Forest, todo: Forest)
    requires AbsorbProgress(p, f, prompted, a, done, todo) && (todo.Entry? ==> !a(todo.id, p))
    ensures IsAbsorbed(p, f, prompted, a, done, todo)
  {
    ConcatEmpty(done);
  }

  /** The two branches of menu_finalize, with the hoisting at its end. */
  lemma ShapedListed(f: Forest, prompted: set<nat>, a: Decisions, kids: Forest, kids': Forest)
    requires f.Entry? && f.kids.Entry? && ChainProgress(f.kids, prompted, a, kids, Empty)
    requires kids' == HoistAll(prompted, kids) && Ids(kids') == Ids(kids)
    ensures IsShaped(f, prompted, a, Entry(f.id, kids', f.rest))
  {
    var f' := Entry(f.id, kids', f.rest);
    forall b: Decisions | Agree(a, b, Asked(f')) ensures Shaped(f, prompted, b) == f' {
      assert Agree(a, b, Ids(kids) + TopIds(Empty));
      ConcatEmpty(kids);
    }
  }

  lemma ShapedAbsorbed(f: Forest, prompted: set<nat>, a: Decisions, taken: Forest, left: Forest, taken': Forest)
    requires f.Entry? && f.kids.Empty? && IsAbsorbed(f.id, f.rest, prompted, a, taken, left)
    requires taken' == HoistAll(prompted, taken) && Ids(taken') == Ids(taken)
    ensures IsShaped(f, prompted, a, Entry(f.id, taken', left))
  {
    var f' := Entry(f.id, taken', left);
    forall b: Decisions | Agree(a, b, Asked(f')) ensures Shaped(f, prompted, b) == f' {
      assert Agree(a, b, {f.id} + Ids(taken) + TopIds(left));
    }
  }
}
