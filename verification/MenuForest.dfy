/**
 Menu entries as package/config/menu.c links them: `next`, `list` and `parent` pointers, and the
 forests these pointers stand for.
 */
module MenuForest {
  import opened Expressions

  /** A chain of sibling entries: the first one, its children, and the entries after it. */
  datatype Forest = Empty | Entry(id: nat, kids: Forest, rest: Forest)

  /** The pointers of all entries; a missing key is NULL. */
  datatype Links = Links(next: map<nat, nat>, list: map<nat, nat>, parent: map<nat, nat>)

  function Ptr(m: map<nat, nat>, i: nat): Option<nat> {
    if i in m then Some(m[i]) else None
  }

  function SetPtr(m: map<nat, nat>, i: nat, v: Option<nat>): map<nat, nat> {
    if v.Some? then m[i := v.value] else m - {i}
  }

  /** The entries in the order of the configuration file. */
  function Pre(f: Forest): seq<nat> {
    match f
    case Empty => []
    case Entry(i, kids, rest) => [i] + Pre(kids) + Pre(rest)
  }

  function Ids(f: Forest): set<nat> {
    match f
    case Empty => {}
    case Entry(i, kids, rest) => {i} + Ids(kids) + Ids(rest)
  }

  function TopIds(f: Forest): set<nat> {
    if f.Empty? then {} else {f.id} + TopIds(f.rest)
  }

  function Concat(a: Forest, b: Forest): Forest {
    if a.Empty? then b else Entry(a.id, a.kids, Concat(a.rest, b))
  }

  function Last(f: Forest): nat
    requires f.Entry?
  {
    if f.rest.Empty? then f.id else Last(f.rest)
  }

  /** No entry occurs twice. */
  predicate Distinct(f: Forest) {
    match f
    case Empty => true
    case Entry(i, kids, rest) =>
      i !in Ids(kids) && i !in Ids(rest) && Ids(kids) !! Ids(rest) && Distinct(kids) && Distinct(rest)
  }

  function Count(f: Forest): nat {
    match f
    case Empty => 0
    case Entry(_, kids, rest) => 1 + Count(kids) + Count(rest)
  }

  /** The pointers from head up to end stand for f, whose top entries have the parent par. */
  ghost predicate Seg(k: Links, head: Option<nat>, end: Option<nat>, par: Option<nat>, f: Forest)
    decreases f
  {
    match f
    case Empty => head == end
    case Entry(i, kids, rest) =>
      && head == Some(i) && Ptr(k.parent, i) == par
      && Seg(k, Ptr(k.list, i), None, Some(i), kids)
      && Seg(k, Ptr(k.next, i), end, par, rest)
  }

  /** Both sets of pointers agree on the entry i. */
  ghost predicate SameAt(k: Links, k': Links, i: nat) {
    Ptr(k.next, i) == Ptr(k'.next, i) && Ptr(k.list, i) == Ptr(k'.list, i) && Ptr(k.parent, i) == Ptr(k'.parent, i)
  }

  ghost predicate SameOn(k: Links, k': Links, ids: set<nat>) {
    forall i :: i in ids ==> SameAt(k, k', i)
  }

  /** Only entries in ids have changed pointers. */
  ghost predicate OnlyChanged(k: Links, k': Links, ids: set<nat>) {
    forall i :: i !in ids ==> SameAt(k, k', i)
  }

  lemma {:induction false} SegFrame(k: Links, k': Links, head: Option<nat>, end: Option<nat>, par: Option<nat>,
                                    f: Forest)
    requires Seg(k, head, end, par, f) && SameOn(k, k', Ids(f))
    ensures Seg(k', head, end, par, f)
    decreases f
  {
    if f.Entry? {
      assert SameAt(k, k', f.id);
      SegFrame(k, k', Ptr(k.list, f.id), None, Some(f.id), f.kids);
      SegFrame(k, k', Ptr(k.next, f.id), end, par, f.rest);
    }
  }

  lemma {:induction false} SegAppend(k: Links, head: Option<nat>, mid: Option<nat>, end: Option<nat>, par: Option<nat>,
                                     a: Forest, b: Forest)
    requires Seg(k, head, mid, par, a) && Seg(k, mid, end, par, b)
    ensures Seg(k, head, end, par, Concat(a, b))
    decreases a
  {
    if a.Entry? {
      SegAppend(k, Ptr(k.next, a.id), mid, end, par, a.rest, b);
    }
  }

  /** Redirecting the next pointer of the last entry of a chain. */
  lemma {:induction false} SegReend(k: Links, k': Links, head: Option<nat>, end: Option<nat>, end': Option<nat>,
                                    par: Option<nat>, f: Forest)
    requires f.Entry? && Seg(k, head, end, par, f) && Distinct(f)
    requires SameOn(k, k', Ids(f) - {Last(f)})
    requires Ptr(k'.next, Last(f)) == end'
    requires Ptr(k'.list, Last(f)) == Ptr(k.list, Last(f)) && Ptr(k'.parent, Last(f)) == Ptr(k.parent, Last(f))
    ensures Seg(k', head, end', par, f)
    decreases f
  {
    LastInIds(f);
    if f.rest.Empty? {
      SegFrame(k, k', Ptr(k.list, f.id), None, Some(f.id), f.kids);
    } else {
      LastInIds(f.rest);
      assert SameAt(k, k', f.id);
      SegFrame(k, k', Ptr(k.list, f.id), None, Some(f.id), f.kids);
      SegReend(k, k', Ptr(k.next, f.id), end, end', par, f.rest);
    }
  }

  lemma {:induction false} LastInIds(f: Forest)
    requires f.Entry?
    ensures Last(f) in TopIds(f) && Last(f) in Ids(f)
  {
    if f.rest.Entry? {
      LastInIds(f.rest);
    }
  }

  lemma {:induction false} TopInIds(f: Forest)
    ensures TopIds(f) <= Ids(f)
  {
    if f.Entry? {
      TopInIds(f.rest);
    }
  }

  lemma {:induction false} ConcatFacts(a: Forest, b: Forest)
    ensures Pre(Concat(a, b)) == Pre(a) + Pre(b)
    ensures Ids(Concat(a, b)) == Ids(a) + Ids(b)
    ensures TopIds(Concat(a, b)) == TopIds(a) + TopIds(b)
    ensures Count(Concat(a, b)) == Count(a) + Count(b)
    ensures b.Entry? ==> Last(Concat(a, b)) == Last(b)
    ensures Distinct(a) && Distinct(b) && Ids(a) !! Ids(b) <==> Distinct(Concat(a, b))
  {
    if a.Entry? {
      ConcatFacts(a.rest, b);
    }
  }

  lemma {:induction false} ConcatAssoc(a: Forest, b: Forest, c: Forest)
    ensures Concat(Concat(a, b), c) == Concat(a, Concat(b, c))
  {
    if a.Entry? {
      ConcatAssoc(a.rest, b, c);
    }
  }

  lemma {:induction false} ConcatEmpty(a: Forest)
    ensures Concat(a, Empty) == a
  {
    if a.Entry? {
      ConcatEmpty(a.rest);
    }
  }

  lemma {:induction false} PreIds(f: Forest)
    ensures forall i :: i in Pre(f) <==> i in Ids(f)
    ensures |Pre(f)| == Count(f)
  {
    if f.Entry? {
      PreIds(f.kids);
      PreIds(f.rest);
    }
  }

  ghost predicate NoDup(s: seq<nat>) {
    forall i, j :: 0 <= i < j < |s| ==> s[i] != s[j]
  }

  lemma NoDupConcat(a: seq<nat>, b: seq<nat>)
    ensures NoDup(a + b) <==> NoDup(a) && NoDup(b) && forall x :: x in a ==> x !in b
  {
    if NoDup(a + b) {
      forall i, j | 0 <= i < j < |a| ensures a[i] != a[j] {
        assert (a + b)[i] == a[i] && (a + b)[j] == a[j];
      }
      forall i, j | 0 <= i < j < |b| ensures b[i] != b[j] {
        assert (a + b)[|a| + i] == b[i] && (a + b)[|a| + j] == b[j];
      }
      forall i, j | 0 <= i < |a| && 0 <= j < |b| ensures a[i] != b[j] {
        assert (a + b)[i] == a[i] && (a + b)[|a| + j] == b[j];
      }
    }
    if NoDup(a) && NoDup(b) && forall x :: x in a ==> x !in b {
      forall i, j | 0 <= i < j < |a + b| ensures (a + b)[i] != (a + b)[j] {
        if i < |a| <= j {
          assert (a + b)[i] == a[i] && (a + b)[j] == b[j - |a|];
          assert a[i] in a && b[j - |a|] in b;
        }
      }
    }
  }

  /** Distinctness only depends on the order of the entries, not on their nesting. */
  lemma {:induction false} DistinctPre(f: Forest)
    ensures Distinct(f) <==> NoDup(Pre(f))
  {
    if f.Entry? {
      DistinctPre(f.kids);
      DistinctPre(f.rest);
      PreIds(f.kids);
      PreIds(f.rest);
      NoDupConcat([f.id] + Pre(f.kids), Pre(f.rest));
      NoDupConcat([f.id], Pre(f.kids));
    }
  }

  lemma SamePre(f: Forest, f': Forest)
    requires Pre(f) == Pre(f')
    ensures Ids(f) == Ids(f') && Count(f) == Count(f') && (Distinct(f) <==> Distinct(f'))
  {
    PreIds(f);
    PreIds(f');
    DistinctPre(f);
    DistinctPre(f');
  }

  /** The first entry of a chain on its own. */
  function First(f: Forest): Forest
    requires f.Entry?
  {
    Entry(f.id, f.kids, Empty)
  }

  /** Moving the first entry of what is left of a chain to what is done. */
  lemma MoveFirst(done: Forest, t: Forest)
    requires t.Entry?
    ensures Concat(done, First(t)).Entry? && Last(Concat(done, First(t))) == t.id
    ensures Pre(Concat(done, First(t))) + Pre(t.rest) == Pre(done) + Pre(t)
    ensures Ids(Concat(done, First(t))) == Ids(done) + Ids(First(t))
    ensures Count(t.rest) < Count(t)
  {
    ConcatFacts(done, First(t));
    FirstPre(t);
    assert Pre(done) + Pre(First(t)) + Pre(t.rest) == Pre(done) + (Pre(First(t)) + Pre(t.rest));
  }

  lemma FirstPre(t: Forest)
    requires t.Entry?
    ensures Pre(First(t)) + Pre(t.rest) == Pre(t)
  {
    NoRest(First(t));
  }

  lemma NoRest(f: Forest)
    requires f.Entry? && f.rest.Empty?
    ensures Pre(f) == [f.id] + Pre(f.kids) && Ids(f) == {f.id} + Ids(f.kids)
  {
    assert Pre(f) == [f.id] + Pre(f.kids) + Pre(f.rest);
    assert Pre(f.rest) == [];
  }

  /** Stepping over the first entry of what is left of a chain. */
  lemma Advance(k: Links, head: Option<nat>, end: Option<nat>, par: Option<nat>, done: Forest, todo: Forest)
    requires todo.Entry?
    requires Seg(k, head, Some(todo.id), par, done) && Seg(k, Some(todo.id), end, par, todo)
    ensures Seg(k, head, Ptr(k.next, todo.id), par, Concat(done, First(todo)))
    ensures Seg(k, Ptr(k.next, todo.id), end, par, todo.rest)
    ensures Pre(Concat(done, First(todo))) + Pre(todo.rest) == Pre(done) + Pre(todo)
  {
    assert Seg(k, Some(todo.id), Ptr(k.next, todo.id), par, First(todo));
    SegAppend(k, head, Some(todo.id), Ptr(k.next, todo.id), par, done, First(todo));
    MoveFirst(done, todo);
  }

  /** b is what is left of the chain a after some entries. */
  predicate Suffix(a: Forest, b: Forest) {
    a == b || (a.Entry? && Suffix(a.rest, b))
  }

  lemma {:induction false} SuffixTrans(a: Forest, b: Forest, c: Forest)
    requires Suffix(a, b) && Suffix(b, c)
    ensures Suffix(a, c)
  {
    if a != b {
      SuffixTrans(a.rest, b, c);
    }
  }

  lemma {:induction false} SuffixEmpty(a: Forest)
    ensures Suffix(a, Empty)
  {
    if a.Entry? {
      SuffixEmpty(a.rest);
    }
  }

  lemma SuffixRest(a: Forest, b: Forest, c: Forest)
    requires Suffix(a, b) && b.Entry? && Suffix(b.rest, c)
    ensures Suffix(a, c)
  {
    SuffixTrans(b, b.rest, c);
    SuffixTrans(a, b, c);
  }

  lemma {:induction false} SuffixFacts(a: Forest, b: Forest)
    requires Suffix(a, b) && Distinct(a)
    ensures Ids(b) <= Ids(a) && TopIds(b) == TopIds(a) * Ids(b) && Count(b) <= Count(a) && Distinct(b)
  {
    TopInIds(b);
    if a != b {
      SuffixFacts(a.rest, b);
    } else {
      TopInIds(a);
    }
  }

  /** A chain ends where the next pointer of its last entry says. */
  lemma {:induction false} SegLastNext(k: Links, head: Option<nat>, end: Option<nat>, par: Option<nat>, f: Forest)
    requires f.Entry? && Seg(k, head, end, par, f)
    ensures Ptr(k.next, Last(f)) == end
    decreases f
  {
    if f.rest.Entry? {
      SegLastNext(k, Ptr(k.next, f.id), end, par, f.rest);
    }
  }

  lemma SegNone(k: Links, end: Option<nat>, par: Option<nat>, f: Forest)
    requires Seg(k, None, end, par, f)
    ensures f.Empty? && end.None?
  {
  }

  lemma SegSome(k: Links, head: nat, par: Option<nat>, f: Forest)
    requires Seg(k, Some(head), None, par, f)
    ensures f.Entry?
  {
  }

  /** A chain from its first entry. */
  lemma SegEntry(k: Links, i: nat, end: Option<nat>, par: Option<nat>, kids: Forest, rest: Forest)
    requires Ptr(k.parent, i) == par && Seg(k, Ptr(k.list, i), None, Some(i), kids)
             && Seg(k, Ptr(k.next, i), end, par, rest)
    ensures Seg(k, Some(i), end, par, Entry(i, kids, rest))
  {
  }
}
