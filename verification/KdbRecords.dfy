/**
 The records of package/webface/kdb.c, and what its look-up and its sort order mean.
 */
module KdbRecords {
  import opened CStrings
  import opened Expressions

  datatype Record = Record(name: seq<Byte>, value: seq<Byte>)

  predicate DistinctNames(lines: seq<Record>) {
    forall i, j :: 0 <= i < j < |lines| ==> lines[i].name != lines[j].name
  }

  /** The index of the first record with this name, or -1. */
  function Find(lines: seq<Record>, key: seq<Byte>): (i: int)
    ensures -1 <= i < |lines|
    ensures i >= 0 ==> lines[i].name == key
  {
    if lines == [] then -1
    else if lines[0].name == key then 0
    else
      var i := Find(lines[1..], key);
      if i < 0 then -1 else i + 1
  }

  /** It is the first. */
  lemma {:induction false} FindFirst(lines: seq<Record>, key: seq<Byte>)
    ensures forall j :: 0 <= j < (if Find(lines, key) < 0 then |lines| else Find(lines, key)) ==> lines[j].name != key
  {
    if lines != [] {
      FindFirst(lines[1..], key);
    }
  }

  lemma FindUnique(lines: seq<Record>, key: seq<Byte>, i: nat)
    requires i < |lines| && lines[i].name == key && forall j :: 0 <= j < i ==> lines[j].name != key
    ensures Find(lines, key) == i
  {
    FindFirst(lines, key);
  }

  lemma FindNone(lines: seq<Record>, key: seq<Byte>)
    requires forall j :: 0 <= j < |lines| ==> lines[j].name != key
    ensures Find(lines, key) == -1
  {
  }

  function Get(lines: seq<Record>, key: seq<Byte>): Option<seq<Byte>> {
    var i := Find(lines, key);
    if i < 0 then None else Some(lines[i].value)
  }

  function Remove(lines: seq<Record>, i: nat): seq<Record>
    requires i < |lines|
  {
    lines[..i] + lines[i + 1..]
  }

  lemma RemoveElements(lines: seq<Record>, i: nat)
    requires i < |lines|
    ensures |Remove(lines, i)| == |lines| - 1
    ensures forall j :: 0 <= j < i ==> Remove(lines, i)[j] == lines[j]
    ensures forall j :: i <= j < |lines| - 1 ==> Remove(lines, i)[j] == lines[j + 1]
    ensures DistinctNames(lines) ==> DistinctNames(Remove(lines, i))
  {
  }

  /** Removing a record does not disturb the others. */
  lemma RemoveGet(lines: seq<Record>, i: nat, key: seq<Byte>)
    requires i < |lines| && DistinctNames(lines)
    ensures Get(Remove(lines, i), key) == if key == lines[i].name then None else Get(lines, key)
  {
    RemoveElements(lines, i);
    FindFirst(lines, key);
    var r, x := Remove(lines, i), Find(lines, key);
    if key != lines[i].name && x >= 0 {
      FindUnique(r, key, if x < i then x else x - 1);
    } else {
      forall y | 0 <= y < |r| ensures r[y].name != key {
        assert r[y] == lines[if y < i then y else y + 1];
      }
    }
  }

  lemma AppendGet(lines: seq<Record>, r: Record, key: seq<Byte>)
    requires Find(lines, r.name) < 0
    ensures Get(lines + [r], key) == if key == r.name then Some(r.value) else Get(lines, key)
  {
    var x := Find(lines, key);
    FindFirst(lines, key);
    if key == r.name {
      FindUnique(lines + [r], key, |lines|);
    } else if x >= 0 {
      FindUnique(lines + [r], key, x);
    }
  }

  // ---- strcmp ----

  /** strcmp(a, b) <= 0, which compares bytes without sign. */
  predicate LessEq(a: seq<Byte>, b: seq<Byte>) {
    a == [] || (b != [] && (a[0] < b[0] || (a[0] == b[0] && LessEq(a[1..], b[1..]))))
  }

  lemma {:induction false} LessEqAntisymmetric(a: seq<Byte>, b: seq<Byte>)
    requires LessEq(a, b) && LessEq(b, a)
    ensures a == b
  {
    if a != [] {
      LessEqAntisymmetric(a[1..], b[1..]);
      assert a == [a[0]] + a[1..] && b == [b[0]] + b[1..];
    }
  }

  predicate Sorted(lines: seq<Record>) {
    forall i, j :: 0 <= i < j < |lines| ==> LessEq(lines[i].name, lines[j].name)
  }

  /** What qsort may return. */
  predicate SortedFrom(sorted: seq<Record>, lines: seq<Record>) {
    Sorted(sorted) && multiset(sorted) == multiset(lines)
  }

  lemma InMultiset(s: seq<Record>, r: Record)
    ensures r in multiset(s) <==> exists i :: 0 <= i < |s| && s[i] == r
  {
  }

  /** The first of two sorted arrangements of the same records. */
  lemma SameFirst(a: seq<Record>, b: seq<Record>)
    requires a != [] && b != [] && Sorted(a) && Sorted(b) && multiset(a) == multiset(b)
    ensures a[0].name == b[0].name
  {
    InMultiset(a, b[0]);
    InMultiset(b, a[0]);
    var i :| 0 <= i < |a| && a[i] == b[0];
    var j :| 0 <= j < |b| && b[j] == a[0];
    if i != 0 && j != 0 {
      LessEqAntisymmetric(a[0].name, b[0].name);
    }
  }

  /** With distinct names there is only one sorted arrangement. */
  lemma {:induction false} SortedUnique(a: seq<Record>, b: seq<Record>)
    requires Sorted(a) && Sorted(b) && multiset(a) == multiset(b) && DistinctNames(a)
    ensures a == b
  {
    if a == [] {
      assert |multiset(b)| == 0;
    } else {
      assert |multiset(a)| == |a| && |multiset(b)| == |b|;
      SameFirst(a, b);
      InMultiset(a, b[0]);
      var i :| 0 <= i < |a| && a[i] == b[0];
      assert i == 0;
      TailMultiset(a);
      TailMultiset(b);
      SortedUnique(a[1..], b[1..]);
      assert a == [a[0]] + a[1..] && b == [b[0]] + b[1..];
    }
  }

  lemma TailMultiset(s: seq<Record>)
    requires s != []
    ensures multiset(s[1..]) == multiset(s) - multiset{s[0]}
  {
    assert s == [s[0]] + s[1..];
  }
}
