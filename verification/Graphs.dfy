/**
 Graphs between symbols, and what it means that a graph has no cycle.
 */
module Graphs {
  import opened Expressions

  /** The edges of every symbol; a symbol without an entry has none. */
  type Graph = map<Sym, seq<Sym>>

  function Next(d: Graph, s: Sym): seq<Sym> {
    if s in d then d[s] else []
  }

  ghost predicate Walk(d: Graph, w: seq<Sym>) {
    forall i :: 0 <= i < |w| - 1 ==> w[i + 1] in Next(d, w[i])
  }

  ghost predicate WalkBetween(d: Graph, w: seq<Sym>, s: Sym, t: Sym) {
    |w| >= 2 && w[0] == s && w[|w| - 1] == t && Walk(d, w)
  }

  /** t can be reached from s along at least one dependency. */
  ghost predicate Leads(d: Graph, s: Sym, t: Sym) {
    exists w: seq<Sym> :: WalkBetween(d, w, s, t)
  }

  /** Some dependency cycle can be reached from s. */
  ghost predicate CycleReachable(d: Graph, s: Sym) {
    exists x: Sym :: (s == x || Leads(d, s, x)) && Leads(d, x, x)
  }

  lemma LeadsEdge(d: Graph, s: Sym, t: Sym)
    requires t in Next(d, s)
    ensures Leads(d, s, t)
  {
    assert WalkBetween(d, [s, t], s, t);
  }

  lemma LeadsThen(d: Graph, s: Sym, t: Sym, u: Sym)
    requires Leads(d, s, t) && u in Next(d, t)
    ensures Leads(d, s, u)
  {
    var w :| WalkBetween(d, w, s, t);
    assert WalkBetween(d, w + [u], s, u);
  }

  lemma LeadsBefore(d: Graph, s: Sym, t: Sym, u: Sym)
    requires t in Next(d, s) && Leads(d, t, u)
    ensures Leads(d, s, u)
  {
    var w :| WalkBetween(d, w, t, u);
    assert WalkBetween(d, [s] + w, s, u);
  }

  /** Every walk from s has at most n steps. */
  ghost predicate Bounded(d: Graph, n: nat, s: Sym) {
    forall t :: t in Next(d, s) ==> n > 0 && Bounded(d, n - 1, t)
  }

  /** No dependency cycle can be reached from s: the walks from s have bounded length. */
  ghost predicate Tame(d: Graph, s: Sym) {
    exists n: nat :: Bounded(d, n, s)
  }

  ghost predicate Acyclic(d: Graph) {
    forall s: Sym :: Tame(d, s)
  }

  lemma {:induction false} BoundedMonotone(d: Graph, m: nat, n: nat, s: Sym)
    requires Bounded(d, m, s) && m <= n
    ensures Bounded(d, n, s)
    decreases m
  {
    forall t | t in Next(d, s) ensures n > 0 && Bounded(d, n - 1, t) {
      BoundedMonotone(d, m - 1, n - 1, t);
    }
  }

  lemma BoundedAt(d: Graph, n: nat, s: Sym)
    requires forall t :: t in Next(d, s) ==> n > 0 && Bounded(d, n - 1, t)
    ensures Bounded(d, n, s)
  {
  }

  lemma BoundedStep(d: Graph, n: nat, s: Sym, t: Sym)
    requires Bounded(d, n, s) && t in Next(d, s)
    ensures n > 0 && Bounded(d, n - 1, t)
  {
  }

  lemma WalkStep(d: Graph, w: seq<Sym>, k: nat)
    requires Walk(d, w) && k + 1 < |w|
    ensures w[k + 1] in Next(d, w[k])
  {
  }

  lemma BoundedSame(d: Graph, n: nat, s: Sym, m: nat, t: Sym)
    requires Bounded(d, n, s) && m == n && t == s
    ensures Bounded(d, m, t)
  {
  }

  lemma WalkTail(d: Graph, w: seq<Sym>)
    requires Walk(d, w) && |w| > 0
    ensures Walk(d, w[1..])
  {
    forall i | 0 <= i < |w[1..]| - 1 ensures w[1..][i + 1] in Next(d, w[1..][i]) {
      WalkStep(d, w, i + 1);
    }
  }

  lemma {:induction false} BoundedAlong(d: Graph, n: nat, w: seq<Sym>, k: nat)
    requires Walk(d, w) && k < |w| && Bounded(d, n, w[0])
    ensures k <= n && Bounded(d, n - k, w[k])
  {
    if k > 0 {
      var v := w[1..];
      WalkStep(d, w, 0);
      BoundedStep(d, n, w[0], w[1]);
      WalkTail(d, w);
      BoundedSame(d, n - 1, w[1], n - 1, v[0]);
      BoundedAlong(d, n - 1, v, k - 1);
      BoundedSame(d, n - 1 - (k - 1), v[k - 1], n - k, w[k]);
    }
  }

  lemma {:induction false} BoundedNoCycle(d: Graph, n: nat, s: Sym, w: seq<Sym>)
    requires WalkBetween(d, w, s, s)
    ensures !Bounded(d, n, s)
    decreases n
  {
    if Bounded(d, n, s) {
      BoundedAlong(d, n, w, |w| - 1);
      BoundedNoCycle(d, n - (|w| - 1), s, w);
    }
  }

  /** From a tame symbol no cycle can be reached. */
  lemma TameNoCycle(d: Graph, s: Sym)
    requires Tame(d, s)
    ensures !CycleReachable(d, s)
  {
    var n: nat :| Bounded(d, n, s);
    if CycleReachable(d, s) {
      var x: Sym :| (s == x || Leads(d, s, x)) && Leads(d, x, x);
      var c :| WalkBetween(d, c, x, x);
      var m := n;
      if s != x {
        var w :| WalkBetween(d, w, s, x);
        BoundedAlong(d, n, w, |w| - 1);
        m := n - (|w| - 1);
      }
      BoundedNoCycle(d, m, x, c);
    }
  }

  /** One bound for all dependencies of a symbol gives one for the symbol. */
  lemma TameFromDeps(d: Graph, s: Sym)
    requires forall t :: t in Next(d, s) ==> Tame(d, t)
    ensures Tame(d, s)
  {
    var n := CommonBound(d, Next(d, s));
    assert Bounded(d, n + 1, s);
  }

  lemma {:induction false} CommonBound(d: Graph, ts: seq<Sym>) returns (n: nat)
    requires forall t :: t in ts ==> Tame(d, t)
    ensures forall t :: t in ts ==> Bounded(d, n, t)
  {
    if ts == [] {
      n := 0;
    } else {
      var m := CommonBound(d, ts[1..]);
      assert ts[0] in ts;
      var k: nat :| Bounded(d, k, ts[0]);
      n := if m < k then k else m;
      forall t | t in ts ensures Bounded(d, n, t) {
        if t == ts[0] {
          BoundedMonotone(d, k, n, t);
        } else {
          BoundedMonotone(d, m, n, t);
        }
      }
    }
  }

  /** The length of the longest walk from a tame symbol. */
  ghost function Height(d: Graph, s: Sym): (h: nat)
    requires Tame(d, s)
    ensures Bounded(d, h, s)
    ensures forall n: nat :: Bounded(d, n, s) ==> h <= n
  {
    var n: nat :| Bounded(d, n, s);
    HeightBelow(d, s, n)
  }

  ghost function HeightBelow(d: Graph, s: Sym, n: nat): (h: nat)
    requires Bounded(d, n, s)
    ensures Bounded(d, h, s)
    ensures forall m: nat :: Bounded(d, m, s) ==> h <= m
    decreases n
  {
    if n > 0 && Bounded(d, n - 1, s) then HeightBelow(d, s, n - 1)
    else
      assert forall m: nat :: Bounded(d, m, s) ==> n <= m by {
        forall m: nat | Bounded(d, m, s) ensures n <= m {
          if m < n { BoundedMonotone(d, m, n - 1, s); }
        }
      }
      n
  }

  /** Every dependency is strictly lower. */
  lemma HeightDecreases(d: Graph, s: Sym, t: Sym)
    requires Tame(d, s) && t in Next(d, s)
    ensures Tame(d, t) && Height(d, t) < Height(d, s)
  {
    assert Bounded(d, Height(d, s), s);
    assert Bounded(d, Height(d, s) - 1, t);
  }

  /** A graph without reachable cycles among its own symbols is acyclic. */
  lemma AcyclicFromTable(d: Graph)
    requires forall s :: s in d ==> Tame(d, s)
    ensures Acyclic(d)
  {
    forall s: Sym ensures Tame(d, s) {
      if s !in d {
        assert Bounded(d, 0, s);
      }
    }
  }

  lemma AcyclicNoCycle(d: Graph)
    ensures Acyclic(d) ==> forall x: Sym :: !Leads(d, x, x)
  {
    if Acyclic(d) {
      forall x: Sym ensures !Leads(d, x, x) {
        TameNoCycle(d, x);
      }
    }
  }

  // ---- Cycles in finite graphs ----

  lemma LeadsAlong(d: Graph, w: seq<Sym>, i: nat, j: nat)
    requires Walk(d, w) && i < j < |w|
    ensures Leads(d, w[i], w[j])
  {
    var v := w[i..j + 1];
    forall k | 0 <= k < |v| - 1 ensures v[k + 1] in Next(d, v[k]) {
      WalkStep(d, w, i + k);
    }
    assert WalkBetween(d, v, w[i], w[j]);
  }

  lemma LeadsTrans(d: Graph, s: Sym, t: Sym, x: Sym)
    requires Leads(d, s, t) && Leads(d, t, x)
    ensures Leads(d, s, x)
  {
    var v :| WalkBetween(d, v, s, t);
    var w :| WalkBetween(d, w, t, x);
    var vw := v + w[1..];
    forall k | 0 <= k < |vw| - 1 ensures vw[k + 1] in Next(d, vw[k]) {
      if k + 1 < |v| {
        WalkStep(d, v, k);
      } else {
        WalkStep(d, w, k + 1 - |v|);
      }
    }
    assert WalkBetween(d, vw, s, x);
  }

  /** Where no symbol leads to itself, the walks are bounded: a walk that is too long would come back. */
  lemma {:induction false} NoCycleTame(d: Graph, s: Sym, before: set<Sym>)
    requires (forall x :: !Leads(d, x, x)) && s !in before && forall p :: p in before ==> Leads(d, p, s)
    ensures Tame(d, s)
    decreases d.Keys - before
  {
    if s in d {
      forall t | t in Next(d, s) ensures Tame(d, t) {
        LeadsEdge(d, s, t);
        forall p | p in before + {s} ensures Leads(d, p, t) {
          if p != s {
            LeadsThen(d, p, s, t);
          }
        }
        NoCycleTame(d, t, before + {s});
      }
      TameFromDeps(d, s);
    } else {
      assert Bounded(d, 0, s);
    }
  }

  lemma AcyclicIff(d: Graph)
    ensures Acyclic(d) <==> forall x: Sym :: !Leads(d, x, x)
  {
    AcyclicNoCycle(d);
    if forall x: Sym :: !Leads(d, x, x) {
      forall s: Sym ensures Tame(d, s) {
        NoCycleTame(d, s, {});
      }
    }
  }

  /** A graph with more edges has no cycle exactly if the one with fewer has none and no additional edge
      closes one. */
  lemma AcyclicMoreEdges(d: Graph, e: Graph)
    requires forall s, t :: t in Next(d, s) ==> t in Next(e, s)
    ensures Acyclic(e) <==>
      Acyclic(d) && forall s, t :: t in Next(e, s) && t !in Next(d, s) ==> t != s && !Leads(e, t, s)
  {
    AcyclicIff(d);
    AcyclicIff(e);
    if Acyclic(e) {
      forall x: Sym ensures !Leads(d, x, x) {
        if Leads(d, x, x) {
          MoreLeads(d, e, x, x);
        }
      }
      forall s, t | t in Next(e, s) && t !in Next(d, s) ensures t != s && !Leads(e, t, s) {
        LeadsEdge(e, s, t);
        if Leads(e, t, s) {
          LeadsBefore(e, s, t, s);
        }
      }
    }
    if Acyclic(d) && forall s, t :: t in Next(e, s) && t !in Next(d, s) ==> t != s && !Leads(e, t, s) {
      forall x: Sym ensures !Leads(e, x, x) {
        if Leads(e, x, x) {
          var w :| WalkBetween(e, w, x, x);
          NoMoreEdges(d, e, w, x);
        }
      }
    }
  }

  lemma MoreLeads(d: Graph, e: Graph, s: Sym, t: Sym)
    requires (forall x, y :: y in Next(d, x) ==> y in Next(e, x)) && Leads(d, s, t)
    ensures Leads(e, s, t)
  {
    var w :| WalkBetween(d, w, s, t);
    assert WalkBetween(e, w, s, t);
  }

  lemma NoMoreEdges(d: Graph, e: Graph, w: seq<Sym>, x: Sym)
    requires WalkBetween(e, w, x, x)
    requires forall s, t :: t in Next(e, s) && t !in Next(d, s) ==> t != s && !Leads(e, t, s)
    ensures Leads(d, x, x)
  {
    forall i | 0 <= i < |w| - 1 ensures w[i + 1] in Next(d, w[i]) {
      WalkStep(e, w, i);
      if w[i + 1] !in Next(d, w[i]) {
        EdgeCloses(e, w, x, i);
      }
    }
    assert WalkBetween(d, w, x, x);
  }

  /** Every edge of a closed walk closes it. */
  lemma EdgeCloses(e: Graph, w: seq<Sym>, x: Sym, i: nat)
    requires WalkBetween(e, w, x, x) && i + 1 < |w|
    ensures w[i + 1] == w[i] || Leads(e, w[i + 1], w[i])
  {
    if i + 2 < |w| {
      LeadsAlong(e, w, i + 1, |w| - 1);
    }
    if i > 0 {
      LeadsAlong(e, w, 0, i);
      if i + 2 < |w| {
        LeadsTrans(e, w[i + 1], x, w[i]);
      }
    }
  }
}
