/**
 The record array of package/webface/kdb.c and the operations on it.
 */
module KdbStore {
  import opened Expressions
  import opened CStrings
  import opened KdbCodec
  import opened KdbFile
  import opened KdbRecords
  import opened KdbWildcard

  /** db_set on the records */
  function Updated(lines: seq<Record>, name: seq<Byte>, value: seq<Byte>): (r: seq<Record>)
    requires |lines| <= MAX_LINES
    ensures |lines| <= |r| <= MAX_LINES
  {
    var i := Find(lines, name);
    if i >= 0 then lines[i := Record(name, value)]
    else if |lines| < MAX_LINES then lines + [Record(name, value)]
    else lines
  }

  /** What a set key reads as afterwards, and that all others stay the same. */
  lemma UpdatedGet(lines: seq<Record>, name: seq<Byte>, value: seq<Byte>, key: seq<Byte>)
    requires |lines| <= MAX_LINES && (Find(lines, name) >= 0 || |lines| < MAX_LINES)
    ensures Get(Updated(lines, name, value), key) == if key == name then Some(value) else Get(lines, key)
  {
    var i := Find(lines, name);
    if i < 0 {
      AppendGet(lines, Record(name, value), key);
    } else {
      SameNamesFind(lines, lines[i := Record(name, value)], key);
    }
  }

  lemma UpdatedDistinct(lines: seq<Record>, name: seq<Byte>, value: seq<Byte>)
    requires |lines| <= MAX_LINES && DistinctNames(lines)
    ensures DistinctNames(Updated(lines, name, value))
  {
    FindFirst(lines, name);
  }

  lemma {:induction false} SameNamesFind(a: seq<Record>, b: seq<Record>, key: seq<Byte>)
    requires |a| == |b| && forall i :: 0 <= i < |a| ==> a[i].name == b[i].name
    ensures Find(a, key) == Find(b, key)
  {
    if a != [] {
      SameNamesFind(a[1..], b[1..], key);
    }
  }

  /** The records whose name the pattern does not match, in order. */
  ghost function Unmatched(lines: seq<Record>, pattern: seq<Byte>): seq<Record> {
    if lines == [] then []
    else if CodeMatches(pattern, lines[0].name) then Unmatched(lines[1..], pattern)
    else [lines[0]] + Unmatched(lines[1..], pattern)
  }

  lemma {:induction false} UnmatchedRemove(lines: seq<Record>, pattern: seq<Byte>, i: nat)
    requires i < |lines| && CodeMatches(pattern, lines[i].name)
    ensures Unmatched(Remove(lines, i), pattern) == Unmatched(lines, pattern)
  {
    if i == 0 {
      assert Remove(lines, 0) == lines[1..];
    } else {
      UnmatchedRemove(lines[1..], pattern, i - 1);
      assert Remove(lines, i)[1..] == Remove(lines[1..], i - 1);
    }
  }

  /** The pattern matches none of the first i names. */
  ghost predicate NoMatch(lines: seq<Record>, pattern: seq<Byte>, i: nat)
    requires i <= |lines|
  {
    forall j :: 0 <= j < i ==> !CodeMatches(pattern, lines[j].name)
  }

  predicate NamesNulFree(lines: seq<Record>) {
    forall i :: 0 <= i < |lines| ==> NulFree(lines[i].name)
  }

  predicate AllNulFree(lines: seq<Record>) {
    forall i :: 0 <= i < |lines| ==> NulFree(lines[i].name) && NulFree(lines[i].value)
  }

  /** One deletion of del. */
  lemma RemoveMatch(lines: seq<Record>, pattern: seq<Byte>, i: nat)
    requires NamesNulFree(lines) && i < |lines| && NoMatch(lines, pattern, i) && CodeMatches(pattern, lines[i].name)
    ensures |Remove(lines, i)| == |lines| - 1 && NamesNulFree(Remove(lines, i)) && NoMatch(Remove(lines, i), pattern, i)
    ensures Unmatched(Remove(lines, i), pattern) == Unmatched(lines, pattern)
  {
    UnmatchedRemove(lines, pattern, i);
    RemoveElements(lines, i);
  }

  lemma {:induction false} UnmatchedAll(lines: seq<Record>, pattern: seq<Byte>)
    requires NoMatch(lines, pattern, |lines|)
    ensures Unmatched(lines, pattern) == lines
  {
    if lines != [] {
      UnmatchedAll(lines[1..], pattern);
      assert lines == [lines[0]] + lines[1..];
    }
  }

  /** A careful pattern deletes exactly the records its documentation says, and no others. */
  lemma {:induction false} UnmatchedGet(lines: seq<Record>, pattern: seq<Byte>, key: seq<Byte>)
    requires Careful(pattern)
    ensures Get(Unmatched(lines, pattern), key) == if Matches(pattern, key) then None else Get(lines, key)
  {
    WildcardExactIff(pattern);
    if lines != [] {
      UnmatchedGet(lines[1..], pattern, key);
      var rest := Unmatched(lines[1..], pattern);
      assert ([lines[0]] + rest)[1..] == rest;
    }
  }

  /** rename on the records: the record that had the new name is removed first. */
  function Renamed(lines: seq<Record>, oldKey: seq<Byte>, newKey: seq<Byte>): seq<Record> {
    var i := Find(lines, newKey);
    var lines1 := if i >= 0 then Remove(lines, i) else lines;
    var j := Find(lines1, oldKey);
    if j < 0 then lines1 else lines1[j := lines1[j].(name := newKey)]
  }

  lemma RenamedGet(lines: seq<Record>, oldKey: seq<Byte>, newKey: seq<Byte>, key: seq<Byte>)
    requires DistinctNames(lines)
    ensures DistinctNames(Renamed(lines, oldKey, newKey))
    ensures Get(Renamed(lines, oldKey, newKey), key)
         == if key == newKey then (if oldKey == newKey then None else Get(lines, oldKey))
            else if key == oldKey then None
            else Get(lines, key)
  {
    var i := Find(lines, newKey);
    var lines1 := if i >= 0 then Remove(lines, i) else lines;
    if i >= 0 {
      RemoveElements(lines, i);
      RemoveGet(lines, i, key);
      RemoveGet(lines, i, oldKey);
      RemoveGet(lines, i, newKey);
    }
    assert Find(lines1, newKey) < 0;
    var j := Find(lines1, oldKey);
    if j >= 0 {
      RelabelGet(lines1, j, newKey, key);
    }
  }

  lemma RelabelGet(lines: seq<Record>, j: nat, name: seq<Byte>, key: seq<Byte>)
    requires DistinctNames(lines) && j < |lines| && Find(lines, name) < 0
    ensures var r := lines[j := lines[j].(name := name)];
      DistinctNames(r)
      && Get(r, key)
      == if key == name then Some(lines[j].value) else if key == lines[j].name then None else Get(lines, key)
  {
    var r := lines[j := lines[j].(name := name)];
    FindFirst(lines, name);
    FindFirst(lines, key);
    if key == name {
      FindUnique(r, key, j);
    } else if key != lines[j].name && Find(lines, key) >= 0 {
      FindUnique(r, key, Find(lines, key));
    } else {
      FindNone(r, key);
    }
  }

  class Database {
    /** db_lines and db_lines_count */
    const lines: array<Record>
    var count: nat
    var needWrite: nat
    var alreadyRead: bool
    /** The contents of the database file. */
    var file: seq<Byte>
    /** Whether the C type char is signed. */
    const signed: bool

    ghost predicate Valid()
      reads this
    {
      lines.Length == MAX_LINES && count <= MAX_LINES
    }

    ghost function Contents(): (s: seq<Record>)
      reads this, lines
      requires Valid()
    {
      lines[..count]
    }

    /** kdbinit */
    constructor (signed: bool, file: seq<Byte>)
      ensures Valid() && fresh(lines) && Contents() == [] && !alreadyRead && needWrite == 0
      ensures this.signed == signed && this.file == file
    {
      lines := new Record[MAX_LINES](_ => Record([], []));
      count, needWrite, alreadyRead := 0, 0, false;
      this.signed, this.file := signed, file;
    }

    /** db_add */
    method Add(name: seq<Byte>, value: seq<Byte>) returns (ok: bool)
      requires Valid()
      modifies this`count, lines
      ensures Valid() && ok == (old(count) < MAX_LINES)
      ensures Contents() == if ok then old(Contents()) + [Record(name, value)] else old(Contents())
    {
      if count >= MAX_LINES {
        return false;
      }
      lines[count] := Record(name, value);
      count := count + 1;
      ok := true;
    }

    /** find_key */
    method FindKey(key: seq<Byte>) returns (i: int)
      requires Valid()
      ensures i == Find(Contents(), key)
    {
      i := 0;
      while i < count
        invariant 0 <= i <= count
        invariant forall j :: 0 <= j < i ==> Contents()[j].name != key
      {
        if lines[i].name == key {
          FindUnique(Contents(), key, i);
          return;
        }
        i := i + 1;
      }
      FindNone(Contents(), key);
      i := -1;
    }

    /** db_set_index */
    method SetIndex(index: int, name: Option<seq<Byte>>, value: Option<seq<Byte>>) returns (ok: bool)
      requires Valid()
      modifies this`needWrite, lines
      ensures Valid() && ok == (0 <= index < count) && needWrite == old(needWrite) + (if ok then 1 else 0)
      ensures Contents() == if !ok then old(Contents()) else
        old(Contents())[index := Record(if name.Some? then name.value else old(lines[index].name),
                                        if value.Some? then value.value else old(lines[index].value))]
    {
      if index < 0 || index >= count {
        return false;
      }
      if name.Some? {
        lines[index] := lines[index].(name := name.value);
      }
      if value.Some? {
        lines[index] := lines[index].(value := value.value);
      }
      needWrite := needWrite + 1;
      ok := true;
    }

    /** db_set */
    method Set(name: seq<Byte>, value: seq<Byte>) returns (ok: bool)
      requires Valid()
      modifies this`count, this`needWrite, lines
      ensures Valid() && ok == (Find(old(Contents()), name) >= 0 || old(count) < MAX_LINES)
      ensures Contents() == Updated(old(Contents()), name, value)
      ensures ok ==> needWrite > old(needWrite)
    {
      var index := FindKey(name);
      if index != -1 {
        ok := SetIndex(index, Some(name), Some(value));
      } else {
        ok := Add(name, value);
      }
      if ok {
        needWrite := needWrite + 1;
      }
    }

    /** db_del_index */
    method DelIndex(index: int) returns (ok: bool)
      requires Valid()
      modifies this`count, this`needWrite, lines
      ensures Valid() && ok == (0 <= index < old(count))
      ensures Contents() == if ok then Remove(old(Contents()), index) else old(Contents())
      ensures needWrite == if ok then 1 else old(needWrite)
    {
      if index < 0 || index >= count {
        return false;
      }
      var i := index;
      while i < count - 1
        invariant index <= i <= count - 1 && count == old(count)
        invariant forall j :: 0 <= j < index ==> lines[j] == old(lines[j])
        invariant forall j :: index <= j < i ==> lines[j] == old(lines[j + 1])
        invariant forall j :: i < j < count ==> lines[j] == old(lines[j])
      {
        lines[i] := lines[i + 1];
        i := i + 1;
      }
      count := count - 1;
      needWrite := 1;
      ok := true;
    }

    /** del: all records that match the pattern */
    method Del(pattern: seq<Byte>)
      requires Valid() && NulFree(pattern) && NamesNulFree(Contents())
      modifies this`count, this`needWrite, lines
      ensures Valid() && Contents() == Unmatched(old(Contents()), pattern)
      ensures count < old(count) ==> needWrite > 0
    {
      var i := 0;
      while i != count
        invariant 0 <= i <= count && Valid() && NamesNulFree(Contents())
        invariant Unmatched(Contents(), pattern) == Unmatched(old(Contents()), pattern)
        invariant NoMatch(Contents(), pattern, i)
        invariant count <= old(count) && (count < old(count) ==> needWrite > 0)
        decreases count, count - i
      {
        i := FindMatch(pattern);
        if i < count {
          RemoveMatch(Contents(), pattern, i);
          var _ := DelIndex(i);
          needWrite := needWrite + 1;
        }
      }
      UnmatchedAll(Contents(), pattern);
    }

    /** The search of WILDCARD_LOOP: the first match, or the number of records. */
    method FindMatch(pattern: seq<Byte>) returns (i: nat)
      requires Valid() && NulFree(pattern) && NamesNulFree(Contents())
      ensures i <= count && NoMatch(Contents(), pattern, i)
      ensures i < count ==> CodeMatches(pattern, Contents()[i].name)
    {
      i := 0;
      while i < count
        invariant i <= count && NoMatch(Contents(), pattern, i)
      {
        assert NulFree(Contents()[i].name);
        var matched := MatchWildcard(pattern, lines[i].name);
        if matched {
          return;
        }
        i := i + 1;
      }
    }

    /** rename */
    method Rename(oldKey: seq<Byte>, newKey: seq<Byte>) returns (ok: bool)
      requires Valid()
      modifies this`count, this`needWrite, lines
      ensures Valid() && Contents() == Renamed(old(Contents()), oldKey, newKey)
    {
      var index := FindKey(newKey);
      if index != -1 {
        var _ := DelIndex(index);
      }
      index := FindKey(oldKey);
      if index == -1 {
        return false;
      }
      var _ := SetIndex(index, Some(newKey), None);
      needWrite := needWrite + 1;
      ok := true;
    }

    /** db_write, where sorted is what qsort makes of the records */
    method Write(sorted: seq<Record>) returns (ok: bool)
      requires Valid() && SortedFrom(sorted, Contents()) && AllNulFree(sorted)
      requires |Image(signed, sorted)| < READ_BUFFER_LEN
      modifies this`file, lines
      ensures Valid() && ok && Contents() == sorted && file == Image(signed, sorted)
    {
      assert |sorted| == |multiset(sorted)| == |multiset(Contents())| == count;
      forall i | 0 <= i < count {
        lines[i] := sorted[i];
      }
      assert Contents() == sorted;
      var buf := WriteBuffer();
      file := buf;
      ok := true;
    }

    /** The buffer db_write fills. */
    method WriteBuffer() returns (buf: seq<Byte>)
      requires Valid() && AllNulFree(Contents())
      ensures buf == Image(signed, Contents())
    {
      ghost var c := Contents();
      var body := [];
      var i := 0;
      while i < count
        invariant 0 <= i <= count
        invariant body == Join(Texts(signed, c[..i]))
      {
        var text := SerializeIndex(i);
        BodyGrows(signed, c, i);
        body := body + text;
        i := i + 1;
      }
      assert c[..i] == c;
      buf := HEADER_LINE + (body + FOOTER_LINE);
    }

    /** db_serialize */
    method SerializeIndex(index: nat) returns (buf: seq<Byte>)
      requires Valid() && index < count && AllNulFree(Contents())
      ensures buf == Serialize(signed, Contents()[index])
    {
      assert NulFree(Contents()[index].name) && NulFree(Contents()[index].value);
      var name := StrEscape(signed, lines[index].name);
      var value := StrEscape(signed, lines[index].value);
      buf := name + [EQUALS] + value + [LF];
    }

    /** db_read, where stale is what the uninitialised header buffer holds */
    method Read(stale: seq<Byte>) returns (ok: bool)
      requires Valid()
      modifies this`count, this`alreadyRead, lines
      ensures Valid() && alreadyRead == (old(alreadyRead) || ok)
      ensures old(alreadyRead) ==> ok && Contents() == old(Contents())
      ensures !old(alreadyRead) ==>
        ReadFile(old(Contents()), file, stale) == Reading(Contents(), ok)
    {
      if alreadyRead {
        return true;
      }
      var head := if file == [] then stale else file[..HeadLength(file)];
      if !(MAGIC <= CString(head)) {
        return false;
      }
      ok := ReadRest(file[HeadLength(file)..], FOOTER_LINE);
      if ok {
        alreadyRead := true;
      }
    }

    /** Its loop. */
    method ReadRest(all: seq<Byte>, footer: seq<Byte>) returns (ok: bool)
      requires Valid()
      modifies this`count, lines
      ensures Valid()
      ensures ReadLines(old(Contents()), Lines(all), footer) == Reading(Contents(), ok)
    {
      var rest := all;
      ghost var texts := Lines(all);
      ghost var r := ReadLines(Contents(), texts, footer);
      while rest != []
        invariant Valid() && texts == Lines(rest)
        invariant ReadLines(Contents(), texts, footer) == r
        decreases |rest|
      {
        var text;
        text, rest := Fgets(rest);
        if text == footer {
          return true;
        }
        ok := Unserialize(text);
        if !ok {
          return;
        }
        texts := texts[1..];
      }
      ok := true;
    }

    /** fgets */
    method Fgets(rest: seq<Byte>) returns (text: seq<Byte>, rest': seq<Byte>)
      requires rest != []
      ensures |rest'| < |rest| && Lines(rest) == [text] + Lines(rest') && NulFree(text)
    {
      var n := LineLength(rest, READ_BUFFER_LEN - 1);
      text, rest' := CString(rest[..n]), rest[n..];
      CStringIsNulFree(rest[..n]);
    }

    /** db_unserialize */
    method Unserialize(text: seq<Byte>) returns (ok: bool)
      requires Valid() && NulFree(text)
      modifies this`count, lines
      ensures Valid() && ok == (ParsePair(text).Some? && old(count) < MAX_LINES)
      ensures Contents() == if ok then old(Contents()) + [Stored(ParsePair(text).value)] else old(Contents())
    {
      var pair := ParsePair(text);
      if pair.None? {
        return false;
      }
      PairNulFree(text);
      var name := StrUnescape(pair.value.name);
      var value := StrUnescape(pair.value.value);
      ok := Add(CString(name), CString(value));
    }
  }

  lemma BodyGrows(signed: bool, lines: seq<Record>, i: nat)
    requires i < |lines|
    ensures Join(Texts(signed, lines[..i + 1])) == Join(Texts(signed, lines[..i])) + Serialize(signed, lines[i])
  {
    assert lines[..i + 1] == lines[..i] + [lines[i]];
    TextsAppend(signed, lines[..i], lines[i]);
    JoinAppend(Texts(signed, lines[..i]), Serialize(signed, lines[i]));
  }

  lemma PairNulFree(text: seq<Byte>)
    requires NulFree(text) && ParsePair(text).Some?
    ensures NulFree(ParsePair(text).value.name) && NulFree(ParsePair(text).value.value)
  {
  }
}
