/**
 Numbered lists in package/webface/kdb.c: the keys prefix0, prefix1, ... up to the first that is
 missing, where the prefix ends in an underscore.  listrm removes one item and closes the gap.
 */
module KdbLists {
  import opened Expressions
  import opened CStrings
  import opened KdbFile
  import opened KdbRecords
  import opened KdbStore

  const UNDERSCORE: Byte := 95

  function Digit(d: nat): Byte
    requires d < 10
  {
    match d
    case 0 => 48
    case 1 => 49
    case 2 => 50
    case 3 => 51
    case 4 => 52
    case 5 => 53
    case 6 => 54
    case 7 => 55
    case 8 => 56
    case 9 => 57
  }

  /** %d */
  function Decimal(n: nat): (d: seq<Byte>)
    ensures d != [] && Without(d, UNDERSCORE)
    ensures |d| == 1 <==> n < 10
  {
    if n < 10 then [Digit(n)] else Decimal(n / 10) + [Digit(n % 10)]
  }

  lemma {:induction false} DecimalInjective(a: nat, b: nat)
    requires Decimal(a) == Decimal(b)
    ensures a == b
  {
    if a >= 10 {
      var s, t := Decimal(a), Decimal(b);
      assert s[|s| - 1] == Digit(a % 10) && t[|t| - 1] == Digit(b % 10);
      assert s[..|s| - 1] == Decimal(a / 10) && t[..|t| - 1] == Decimal(b / 10);
      DecimalInjective(a / 10, b / 10);
    }
  }

  /** The key of item i. */
  function Key(prefix: seq<Byte>, i: nat): seq<Byte> {
    prefix + Decimal(i)
  }

  /** The names of the items. */
  type Names = nat -> seq<Byte>

  ghost predicate Injective(names: Names) {
    forall i, j :: names(i) == names(j) ==> i == j
  }

  function Keys(prefix: seq<Byte>): Names {
    (i: nat) => Key(prefix, i)
  }

  lemma KeysInjective(prefix: seq<Byte>)
    ensures Injective(Keys(prefix))
  {
    forall i: nat, j: nat | Keys(prefix)(i) == Keys(prefix)(j) ensures i == j {
      KeyInjective(prefix, i, j);
    }
  }

  lemma KeyInjective(prefix: seq<Byte>, i: nat, j: nat)
    requires Key(prefix, i) == Key(prefix, j)
    ensures i == j
  {
    assert Key(prefix, i)[|prefix|..] == Decimal(i) && Key(prefix, j)[|prefix|..] == Decimal(j);
    DecimalInjective(i, j);
  }

  /** strrchr, with -1 for NULL */
  function LastIndexOf(s: seq<Byte>, b: Byte): (i: int)
    ensures -1 <= i < |s| && (i >= 0 ==> s[i] == b) && forall j :: i < j < |s| ==> s[j] != b
  {
    if s == [] then -1
    else if s[|s| - 1] == b then |s| - 1
    else LastIndexOf(s[..|s| - 1], b)
  }

  /** The key through its last underscore. */
  function Prefix(key: seq<Byte>): seq<Byte> {
    key[..LastIndexOf(key, UNDERSCORE) + 1]
  }

  predicate IsPrefix(prefix: seq<Byte>) {
    prefix != [] && prefix[|prefix| - 1] == UNDERSCORE
  }

  lemma PrefixOfKey(prefix: seq<Byte>, i: nat)
    requires IsPrefix(prefix)
    ensures Prefix(Key(prefix, i)) == prefix
  {
    var k := Key(prefix, i);
    assert k[|prefix| - 1] == UNDERSCORE;
    forall j | |prefix| <= j < |k| ensures k[j] != UNDERSCORE {
      assert k[j] == Decimal(i)[j - |prefix|];
    }
  }

  // ---- The code's view: items are looked up and removed one after the other ----

  /** The items from number i on, in order. */
  function Taken(lines: seq<Record>, names: Names, i: nat): (t: seq<Record>)
    ensures |t| <= |lines|
    decreases |lines|
  {
    var x := Find(lines, names(i));
    if x < 0 then [] else [lines[x]] + Taken(Remove(lines, x), names, i + 1)
  }

  /** What is left when they are removed. */
  function Rest(lines: seq<Record>, names: Names, i: nat): (r: seq<Record>)
    ensures |r| <= |lines|
    decreases |lines|
  {
    var x := Find(lines, names(i));
    if x < 0 then lines else Rest(Remove(lines, x), names, i + 1)
  }

  lemma {:induction false} RestLength(lines: seq<Record>, names: Names, i: nat)
    ensures |Rest(lines, names, i)| + |Taken(lines, names, i)| == |lines|
    decreases |lines|
  {
    var x := Find(lines, names(i));
    if x >= 0 {
      RestLength(Remove(lines, x), names, i + 1);
    }
  }

  /** The items with their new numbers, from number j on, without the one called key. */
  function Renumbered(items: seq<Record>, names: Names, key: seq<Byte>, j: nat): (r: seq<Record>)
    ensures |r| <= |items|
  {
    if items == [] then []
    else if items[0].name == key then Renumbered(items[1..], names, key, j)
    else [Record(names(j), items[0].value)] + Renumbered(items[1..], names, key, j + 1)
  }

  /** db_set for each of the items */
  function SetAll(lines: seq<Record>, items: seq<Record>): (r: seq<Record>)
    requires |lines| <= MAX_LINES
    ensures |r| <= MAX_LINES
    decreases |items|
  {
    if items == [] then lines else SetAll(Updated(lines, items[0].name, items[0].value), items[1..])
  }

  /** listrm on the records */
  function ListRemoved(lines: seq<Record>, key: seq<Byte>): seq<Record>
    requires |lines| <= MAX_LINES
  {
    if LastIndexOf(key, UNDERSCORE) < 0 then lines else Relisted(lines, Keys(Prefix(key)), key)
  }

  /** The list with these names is taken out and put back without key. */
  function Relisted(lines: seq<Record>, names: Names, key: seq<Byte>): (r: seq<Record>)
    requires |lines| <= MAX_LINES
    ensures |r| <= MAX_LINES
  {
    SetAll(Rest(lines, names, 0), Renumbered(Taken(lines, names, 0), names, key, 0))
  }

  /** listrm */
  method ListRm(db: Database, key: seq<Byte>) returns (ok: bool)
    requires db.Valid()
    modifies db`count, db`needWrite, db.lines
    ensures db.Valid() && ok == (LastIndexOf(key, UNDERSCORE) >= 0)
    ensures db.Contents() == ListRemoved(old(db.Contents()), key)
  {
    var s := LastIndexOf(key, UNDERSCORE);
    if s < 0 {
      return false;
    }
    var prefix := Prefix(key);
    var items := TakeItems(db, prefix, key);
    SetItems(db, items);
    ok := true;
  }

  /** Its first loop: all items are removed, those to be kept are collected with new names. */
  method TakeItems(db: Database, prefix: seq<Byte>, key: seq<Byte>) returns (items: seq<Record>)
    requires db.Valid() && IsPrefix(prefix)
    modifies db`count, db`needWrite, db.lines
    ensures db.Valid() && db.Contents() == Rest(old(db.Contents()), Keys(prefix), 0)
    ensures items == Renumbered(Taken(old(db.Contents()), Keys(prefix), 0), Keys(prefix), key, 0)
  {
    ghost var names, all := Keys(prefix), db.Contents();
    items := [];
    var i := 0;
    while true
      invariant db.Valid() && Taking(all, db.Contents(), names, key, i, items)
      decreases db.count
    {
      ghost var before := db.Contents();
      var index := db.FindKey(prefix + Decimal(i));
      assert index == Find(before, names(i));
      if index < 0 {
        break;
      }
      TakingStep(all, before, names, key, i, items);
      var r := db.lines[index];
      if r.name != key {
        var name := r.name[..LastIndexOf(r.name, UNDERSCORE) + 1];
        PrefixOfKey(prefix, i);
        items := items + [Record(name + Decimal(|items|), r.value)];
      }
      var _ := db.DelIndex(index);
      i := i + 1;
    }
    assert items + [] == items;
  }

  /** In the middle of it: with these items collected and this left of all records. */
  ghost predicate Taking(all: seq<Record>, left: seq<Record>, names: Names, key: seq<Byte>, i: nat,
                         items: seq<Record>) {
    && Rest(left, names, i) == Rest(all, names, 0)
    && items + Renumbered(Taken(left, names, i), names, key, |items|) == Renumbered(Taken(all, names, 0), names, key, 0)
  }

  lemma TakingStep(all: seq<Record>, left: seq<Record>, names: Names, key: seq<Byte>, i: nat, items: seq<Record>)
    requires Taking(all, left, names, key, i, items) && Find(left, names(i)) >= 0
    ensures var x := Find(left, names(i));
      var items' := if left[x].name == key then items else items + [Record(names(|items|), left[x].value)];
      Taking(all, Remove(left, x), names, key, i + 1, items')
  {
    RenumberedFirst(left, names, key, i, items);
  }

  lemma RenumberedFirst(lines: seq<Record>, names: Names, key: seq<Byte>, i: nat, items: seq<Record>)
    requires Find(lines, names(i)) >= 0
    ensures var x := Find(lines, names(i));
      var items' := if lines[x].name == key then items else items + [Record(names(|items|), lines[x].value)];
      items + Renumbered(Taken(lines, names, i), names, key, |items|)
      == items' + Renumbered(Taken(Remove(lines, x), names, i + 1), names, key, |items'|)
  {
    var x := Find(lines, names(i));
    assert Taken(lines, names, i)[1..] == Taken(Remove(lines, x), names, i + 1);
  }

  /** Its second loop: the collected items are set again. */
  method SetItems(db: Database, items: seq<Record>)
    requires db.Valid()
    modifies db`count, db`needWrite, db.lines
    ensures db.Valid() && db.Contents() == SetAll(old(db.Contents()), items)
  {
    for i := 0 to |items|
      invariant db.Valid() && SetAll(db.Contents(), items[i..]) == SetAll(old(db.Contents()), items)
    {
      assert items[i..][1..] == items[i + 1..];
      var _ := db.Set(items[i].name, items[i].value);
    }
  }

  // ---- What it means ----

  ghost predicate IsItem(names: Names, from: nat, end: nat, name: seq<Byte>) {
    exists i :: from <= i < end && name == names(i)
  }

  /** The records that are no items, in order. */
  ghost function Outside(lines: seq<Record>, names: Names, from: nat, end: nat): seq<Record> {
    if lines == [] then []
    else if IsItem(names, from, end, lines[0].name) then Outside(lines[1..], names, from, end)
    else [lines[0]] + Outside(lines[1..], names, from, end)
  }

  lemma {:induction false} OutsideNone(lines: seq<Record>, names: Names, from: nat)
    ensures Outside(lines, names, from, from) == lines
  {
    if lines != [] {
      OutsideNone(lines[1..], names, from);
      assert lines == [lines[0]] + lines[1..];
    }
  }

  lemma {:induction false} OutsideRemove(lines: seq<Record>, names: Names, from: nat, end: nat, x: nat)
    requires DistinctNames(lines) && x < |lines| && lines[x].name == names(from) && from < end
    ensures Outside(Remove(lines, x), names, from + 1, end) == Outside(lines, names, from, end)
  {
    if x == 0 {
      assert Remove(lines, 0) == lines[1..];
      OutsideSame(lines[1..], names, from, end);
    } else {
      OutsideRemove(lines[1..], names, from, end, x - 1);
      assert Remove(lines, x)[1..] == Remove(lines[1..], x - 1);
      ItemSplit(names, from, end, lines[0].name);
    }
  }

  lemma ItemSplit(names: Names, from: nat, end: nat, name: seq<Byte>)
    requires from < end
    ensures IsItem(names, from, end, name) <==> name == names(from) || IsItem(names, from + 1, end, name)
  {
    if IsItem(names, from, end, name) {
      var i :| from <= i < end && name == names(i);
      assert i == from || IsItem(names, from + 1, end, name);
    }
  }

  lemma {:induction false} OutsideSame(lines: seq<Record>, names: Names, from: nat, end: nat)
    requires from < end && forall i :: 0 <= i < |lines| ==> lines[i].name != names(from)
    ensures Outside(lines, names, from + 1, end) == Outside(lines, names, from, end)
  {
    if lines != [] {
      OutsideSame(lines[1..], names, from, end);
      ItemSplit(names, from, end, lines[0].name);
    }
  }

  /** The list has n items, whose values are at: the keys below n exist and key n does not. */
  ghost predicate IsList(lines: seq<Record>, names: Names, at: nat -> seq<Byte>, from: nat, n: nat) {
    from <= n && Get(lines, names(n)).None? && forall i :: from <= i < n ==> Get(lines, names(i)) == Some(at(i))
  }

  /** The values from number from to number end, under the names from number j on. */
  function Items(names: Names, at: nat -> seq<Byte>, from: nat, end: nat, j: nat): (r: seq<Record>)
    requires from <= end
    ensures |r| == end - from
    decreases end - from
  {
    if from == end then [] else [Record(names(j), at(from))] + Items(names, at, from + 1, end, j + 1)
  }

  lemma {:induction false} ItemsAt(names: Names, at: nat -> seq<Byte>, from: nat, end: nat, j: nat, i: nat)
    requires from <= end && i < end - from
    ensures Items(names, at, from, end, j)[i] == Record(names(j + i), at(from + i))
    decreases i
  {
    if i > 0 {
      ItemsAt(names, at, from + 1, end, j + 1, i - 1);
    }
  }

  /** After its first item is gone, the rest of the list is still there. */
  lemma ListTail(lines: seq<Record>, names: Names, at: nat -> seq<Byte>, from: nat, n: nat)
    requires Injective(names) && DistinctNames(lines) && IsList(lines, names, at, from, n) && from < n
    ensures var r := Remove(lines, Find(lines, names(from)));
      IsList(r, names, at, from + 1, n) && DistinctNames(r)
  {
    var x := Find(lines, names(from));
    RemoveElements(lines, x);
    forall i | from < i <= n ensures Get(Remove(lines, x), names(i)) == Get(lines, names(i)) {
      RemoveGet(lines, x, names(i));
    }
  }

  /** The same as the code finds it, looking items up and removing them one after the other. */
  ghost predicate FoundList(lines: seq<Record>, names: Names, at: nat -> seq<Byte>, from: nat, n: nat)
    decreases |lines|
  {
    var x := Find(lines, names(from));
    if x < 0 then from == n
    else from < n && lines[x].value == at(from) && FoundList(Remove(lines, x), names, at, from + 1, n)
  }

  lemma {:induction false} ListFound(lines: seq<Record>, names: Names, at: nat -> seq<Byte>, from: nat, n: nat)
    requires Injective(names) && DistinctNames(lines) && IsList(lines, names, at, from, n)
    ensures FoundList(lines, names, at, from, n)
    decreases |lines|
  {
    if from < n {
      ListTail(lines, names, at, from, n);
      ListFound(Remove(lines, Find(lines, names(from))), names, at, from + 1, n);
    }
  }

  /** Taking the items one by one takes all of them. */
  lemma {:induction false} TakenAll(lines: seq<Record>, names: Names, at: nat -> seq<Byte>, from: nat, n: nat)
    requires from <= n && FoundList(lines, names, at, from, n)
    ensures Taken(lines, names, from) == Items(names, at, from, n, from)
    decreases |lines|
  {
    var x := Find(lines, names(from));
    if x >= 0 {
      TakenAll(Remove(lines, x), names, at, from + 1, n);
      assert lines[x] == Record(names(from), at(from));
    }
  }

  /** It leaves all other records in order. */
  lemma {:induction false} RestOutside(lines: seq<Record>, names: Names, at: nat -> seq<Byte>, from: nat, n: nat)
    requires DistinctNames(lines) && from <= n && FoundList(lines, names, at, from, n)
    ensures Rest(lines, names, from) == Outside(lines, names, from, n)
    decreases |lines|
  {
    var x := Find(lines, names(from));
    if x < 0 {
      OutsideNone(lines, names, from);
    } else {
      RemoveElements(lines, x);
      RestOutside(Remove(lines, x), names, at, from + 1, n);
      OutsideRemove(lines, names, from, n, x);
    }
  }

  /** Without the removed item, all keep their order and get consecutive numbers. */
  lemma {:induction false} RenumberedAll(names: Names, at: nat -> seq<Byte>, from: nat, n: nat, k: nat, j: nat)
    requires Injective(names) && k < from <= n
    ensures Renumbered(Items(names, at, from, n, from), names, names(k), j) == Items(names, at, from, n, j)
    decreases n - from
  {
    if from < n {
      var items := Items(names, at, from, n, from);
      assert items[1..] == Items(names, at, from + 1, n, from + 1);
      RenumberedAll(names, at, from + 1, n, k, j + 1);
    }
  }

  /** The kept items move down by one behind the removed item k. */
  lemma {:induction false} RenumberedItems(names: Names, at: nat -> seq<Byte>, from: nat, n: nat, k: nat, j: nat)
    requires Injective(names) && from <= k < n
    ensures Renumbered(Items(names, at, from, n, from), names, names(k), j)
         == Items(names, at, from, k, j) + Items(names, at, k + 1, n, j + k - from)
    decreases n - from
  {
    ItemsFirst(names, at, from, n, from);
    if from == k {
      RenumberedAll(names, at, from + 1, n, k, j);
      assert [] + Items(names, at, k + 1, n, j) == Items(names, at, k + 1, n, j);
    } else {
      RenumberedItems(names, at, from + 1, n, k, j + 1);
      ItemsFirst(names, at, from, k, j);
      Regroup([Record(names(j), at(from))], Items(names, at, from + 1, k, j + 1),
        Items(names, at, k + 1, n, j + k - from));
    }
  }

  lemma ItemsFirst(names: Names, at: nat -> seq<Byte>, from: nat, end: nat, j: nat)
    requires from < end
    ensures var items := Items(names, at, from, end, j);
      && items[0] == Record(names(j), at(from)) && items[1..] == Items(names, at, from + 1, end, j + 1)
      && items == [Record(names(j), at(from))] + Items(names, at, from + 1, end, j + 1)
  {
  }

  /** Setting keys that do not exist appends them. */
  lemma {:induction false} SetAllAppends(lines: seq<Record>, items: seq<Record>)
    requires |lines| + |items| <= MAX_LINES && DistinctNames(lines + items)
    ensures SetAll(lines, items) == lines + items
    decreases |items|
  {
    if items == [] {
      assert lines + [] == lines;
    } else {
      var lines1 := lines + [items[0]];
      forall i | 0 <= i < |lines| ensures lines[i].name != items[0].name {
        assert (lines + items)[i] == lines[i] && (lines + items)[|lines|] == items[0];
      }
      FindNone(lines, items[0].name);
      assert Updated(lines, items[0].name, items[0].value) == lines1;
      assert lines1 + items[1..] == lines + items;
      SetAllAppends(lines1, items[1..]);
    }
  }

  lemma {:induction false} OutsideGet(lines: seq<Record>, names: Names, from: nat, end: nat, name: seq<Byte>)
    requires DistinctNames(lines)
    ensures Get(Outside(lines, names, from, end), name)
         == if IsItem(names, from, end, name) then None else Get(lines, name)
    ensures DistinctNames(Outside(lines, names, from, end))
  {
    if lines != [] {
      OutsideGet(lines[1..], names, from, end, name);
      var rest := Outside(lines[1..], names, from, end);
      assert ([lines[0]] + rest)[1..] == rest;
      OutsideGet(lines[1..], names, from, end, lines[0].name);
      FindNone(lines[1..], lines[0].name);
      PrependDistinct(lines[0], rest);
    }
  }

  lemma PrependDistinct(r: Record, lines: seq<Record>)
    requires DistinctNames(lines) && Get(lines, r.name).None?
    ensures DistinctNames([r] + lines)
  {
    FindFirst(lines, r.name);
  }

  lemma ConcatGet(a: seq<Record>, b: seq<Record>, name: seq<Byte>)
    ensures Get(a + b, name) == if Get(a, name).Some? then Get(a, name) else Get(b, name)
  {
    FindFirst(a, name);
    FindFirst(b, name);
    if Find(a, name) >= 0 {
      FindUnique(a + b, name, Find(a, name));
    } else if Find(b, name) >= 0 {
      FindUnique(a + b, name, |a| + Find(b, name));
    } else {
      FindNone(a + b, name);
    }
  }

  /** What listrm of item k puts back: the items before it, and the ones behind it moved down. */
  function Kept(names: Names, at: nat -> seq<Byte>, n: nat, k: nat): (r: seq<Record>)
    requires k < n
    ensures |r| == n - 1
  {
    Items(names, at, 0, k, 0) + Items(names, at, k + 1, n, k)
  }

  lemma KeptAt(names: Names, at: nat -> seq<Byte>, n: nat, k: nat, i: nat)
    requires k < n && i < n - 1
    ensures Kept(names, at, n, k)[i] == Record(names(i), at(if i < k then i else i + 1))
  {
    if i < k {
      ItemsAt(names, at, 0, k, 0, i);
    } else {
      ItemsAt(names, at, k + 1, n, k, i - k);
    }
  }

  lemma KeptDistinct(names: Names, at: nat -> seq<Byte>, n: nat, k: nat)
    requires Injective(names) && k < n
    ensures DistinctNames(Kept(names, at, n, k))
  {
    var kept := Kept(names, at, n, k);
    forall i: nat | i < n - 1 ensures kept[i].name == names(i) {
      KeptAt(names, at, n, k, i);
    }
  }

  lemma KeptGet(names: Names, at: nat -> seq<Byte>, n: nat, k: nat, i: nat)
    requires Injective(names) && k < n && i < n
    ensures Get(Kept(names, at, n, k), names(i)) == if i == n - 1 then None else Some(at(if i < k then i else i + 1))
  {
    var kept := Kept(names, at, n, k);
    forall l: nat | l < n - 1 ensures kept[l].name == names(l) {
      KeptAt(names, at, n, k, l);
    }
    if i == n - 1 {
      FindNone(kept, names(i));
    } else {
      KeptAt(names, at, n, k, i);
      FindUnique(kept, names(i), i);
    }
  }

  lemma KeptNoOther(names: Names, at: nat -> seq<Byte>, n: nat, k: nat, name: seq<Byte>)
    requires k < n && !IsItem(names, 0, n, name)
    ensures Get(Kept(names, at, n, k), name).None?
  {
    var kept := Kept(names, at, n, k);
    forall l: nat | l < n - 1 ensures kept[l].name != name {
      KeptAt(names, at, n, k, l);
    }
    FindNone(kept, name);
  }

  lemma DistinctConcat(a: seq<Record>, b: seq<Record>)
    requires DistinctNames(a) && DistinctNames(b) && forall i :: 0 <= i < |b| ==> Get(a, b[i].name).None?
    ensures DistinctNames(a + b)
  {
    forall i, j | 0 <= i < |a| && 0 <= j < |b| ensures a[i].name != b[j].name {
      FindFirst(a, b[j].name);
    }
  }

  /** listrm of item k of a list of n items puts the other items at the end, in order and numbered
      without a gap, and keeps all other records in order. */
  lemma RelistedShape(lines: seq<Record>, names: Names, at: nat -> seq<Byte>, n: nat, k: nat)
    requires Injective(names) && DistinctNames(lines) && |lines| <= MAX_LINES
    requires IsList(lines, names, at, 0, n) && k < n
    ensures Relisted(lines, names, names(k)) == Outside(lines, names, 0, n) + Kept(names, at, n, k)
    ensures DistinctNames(Relisted(lines, names, names(k)))
  {
    var outside, kept := Outside(lines, names, 0, n), Kept(names, at, n, k);
    ListFound(lines, names, at, 0, n);
    TakenAll(lines, names, at, 0, n);
    RestOutside(lines, names, at, 0, n);
    RestLength(lines, names, 0);
    RenumberedItems(names, at, 0, n, k, 0);
    OutsideGet(lines, names, 0, n, []);
    KeptDistinct(names, at, n, k);
    forall i | 0 <= i < |kept| ensures Get(outside, kept[i].name).None? {
      KeptAt(names, at, n, k, i);
      OutsideGet(lines, names, 0, n, kept[i].name);
      assert IsItem(names, 0, n, kept[i].name);
    }
    DistinctConcat(outside, kept);
    SetAllAppends(outside, kept);
  }

  lemma RelistedItem(lines: seq<Record>, names: Names, at: nat -> seq<Byte>, n: nat, k: nat, i: nat)
    requires Injective(names) && DistinctNames(lines) && |lines| <= MAX_LINES
    requires IsList(lines, names, at, 0, n) && k < n && i < n
    ensures Get(Relisted(lines, names, names(k)), names(i))
         == if i == n - 1 then None else Some(at(if i < k then i else i + 1))
  {
    RelistedShape(lines, names, at, n, k);
    OutsideGet(lines, names, 0, n, names(i));
    assert IsItem(names, 0, n, names(i));
    KeptGet(names, at, n, k, i);
    ConcatGet(Outside(lines, names, 0, n), Kept(names, at, n, k), names(i));
  }

  lemma RelistedOther(lines: seq<Record>, names: Names, at: nat -> seq<Byte>, n: nat, k: nat, name: seq<Byte>)
    requires Injective(names) && DistinctNames(lines) && |lines| <= MAX_LINES
    requires IsList(lines, names, at, 0, n) && k < n && !IsItem(names, 0, n, name)
    ensures Get(Relisted(lines, names, names(k)), name) == Get(lines, name)
  {
    RelistedShape(lines, names, at, n, k);
    OutsideGet(lines, names, 0, n, name);
    KeptNoOther(names, at, n, k, name);
    ConcatGet(Outside(lines, names, 0, n), Kept(names, at, n, k), name);
  }

  /** Looking keys up after listrm of item k: the list has lost exactly that item and is one shorter,
      and no other key reads differently; the other records are still in order. */
  lemma ListRmResult(lines: seq<Record>, prefix: seq<Byte>, at: nat -> seq<Byte>, n: nat, k: nat)
    requires IsPrefix(prefix) && DistinctNames(lines) && |lines| <= MAX_LINES
    requires IsList(lines, Keys(prefix), at, 0, n) && k < n
    ensures var r := ListRemoved(lines, Key(prefix, k));
      && DistinctNames(r) && Outside(lines, Keys(prefix), 0, n) <= r
      && (forall i :: 0 <= i < n - 1 ==> Get(r, Key(prefix, i)) == Some(at(if i < k then i else i + 1)))
      && Get(r, Key(prefix, n - 1)).None?
      && (forall name :: !IsItem(Keys(prefix), 0, n, name) ==> Get(r, name) == Get(lines, name))
  {
    var names := Keys(prefix);
    KeysInjective(prefix);
    PrefixOfKey(prefix, k);
    var r := ListRemoved(lines, Key(prefix, k));
    assert r == Relisted(lines, names, names(k));
    RelistedShape(lines, names, at, n, k);
    forall i: nat | i < n
      ensures Get(r, Key(prefix, i)) == if i == n - 1 then None else Some(at(if i < k then i else i + 1))
    {
      RelistedItem(lines, names, at, n, k, i);
      assert names(i) == Key(prefix, i);
    }
    forall name | !IsItem(names, 0, n, name) ensures Get(r, name) == Get(lines, name) {
      RelistedOther(lines, names, at, n, k, name);
    }
  }
}
