/**
 The file format of package/webface/kdb.c: a header line, one escaped name=value line per record, and
 a footer line.
 */
module KdbFile {
  import opened CStrings
  import opened KdbCodec
  import opened KdbRecords
  import opened Expressions

  const MAX_LINES := 2048
  const READ_BUFFER_LEN := 32768

  /** KDB */
  const MAGIC: seq<Byte> := [75, 68, 66]
  const HEADER_LINE: seq<Byte> := [75, 68, 66, LF]
  /** The size of the buffer for the header line. */
  const HEAD_BUFFER_LEN := 15
  /** KDB END */
  const FOOTER_LINE: seq<Byte> := [75, 68, 66, SPACE, 69, 78, 68, LF]

  /** db_serialize */
  function Serialize(signed: bool, r: Record): seq<Byte> {
    Escape(signed, r.name) + [EQUALS] + Escape(signed, r.value) + [LF]
  }

  /** The lines db_write writes between header and footer. */
  function Texts(signed: bool, lines: seq<Record>): (r: seq<seq<Byte>>)
    ensures |r| == |lines|
  {
    if lines == [] then [] else [Serialize(signed, lines[0])] + Texts(signed, lines[1..])
  }

  function Join(texts: seq<seq<Byte>>): seq<Byte> {
    if texts == [] then [] else texts[0] + Join(texts[1..])
  }

  /** What db_write writes. */
  function Image(signed: bool, lines: seq<Record>): seq<Byte> {
    HEADER_LINE + (Join(Texts(signed, lines)) + FOOTER_LINE)
  }

  lemma {:induction false} JoinAppend(texts: seq<seq<Byte>>, t: seq<Byte>)
    ensures Join(texts + [t]) == Join(texts) + t
  {
    if texts == [] {
      assert [t][1..] == [];
    } else {
      assert (texts + [t])[1..] == texts[1..] + [t];
      JoinAppend(texts[1..], t);
    }
  }

  lemma {:induction false} TextsAppend(signed: bool, lines: seq<Record>, r: Record)
    ensures Texts(signed, lines + [r]) == Texts(signed, lines) + [Serialize(signed, r)]
  {
    if lines == [] {
      assert [r][1..] == [];
    } else {
      assert (lines + [r])[1..] == lines[1..] + [r];
      TextsAppend(signed, lines[1..], r);
    }
  }

  /** How much fgets takes from what is left of the file, with room for this many bytes. */
  function LineLength(rest: seq<Byte>, room: nat): (n: nat)
    ensures n <= |rest|
    ensures rest != [] && room > 0 ==> n > 0
  {
    if rest == [] || room == 0 then 0
    else if rest[0] == LF then 1
    else 1 + LineLength(rest[1..], room - 1)
  }

  /** strchr, with the length of s for NULL */
  function IndexOf(s: seq<Byte>, b: Byte): (i: nat)
    ensures i <= |s| && (i < |s| ==> s[i] == b) && forall j :: 0 <= j < i ==> s[j] != b
  {
    if s == [] || s[0] == b then 0 else 1 + IndexOf(s[1..], b)
  }

  /** parse_pair */
  function ParsePair(str: seq<Byte>): Option<Record> {
    if str == [] then None
    else
      var s := if str[|str| - 1] == LF then str[..|str| - 1] else str;
      var eq := IndexOf(s, EQUALS);
      if eq == |s| || eq == 0 then None else Some(Record(s[..eq], s[eq + 1..]))
  }

  /** The record a parsed pair is stored as. */
  function Stored(pair: Record): Record {
    Record(CString(Unescape(pair.name)), CString(Unescape(pair.value)))
  }

  /** Records the file format can hold: C strings, with a name. */
  predicate StorableRecord(r: Record) {
    NulFree(r.name) && NulFree(r.value) && r.name != []
  }

  predicate Storable(lines: seq<Record>) {
    forall i :: 0 <= i < |lines| ==> StorableRecord(lines[i])
  }

  /** The records read, and whether reading succeeded. */
  datatype Reading = Reading(lines: seq<Record>, ok: bool)

  /** The strings fgets puts into the buffer, up to the end of the file. */
  function Lines(rest: seq<Byte>): seq<seq<Byte>>
    decreases |rest|
  {
    if rest == [] then []
    else
      var n := LineLength(rest, READ_BUFFER_LEN - 1);
      [CString(rest[..n])] + Lines(rest[n..])
  }

  /** The loop of db_read, which adds to the records there are. */
  function ReadLines(now: seq<Record>, texts: seq<seq<Byte>>, footer: seq<Byte>): Reading
    decreases |texts|
  {
    if texts == [] || texts[0] == footer then Reading(now, true)
    else if ParsePair(texts[0]).None? || |now| >= MAX_LINES then Reading(now, false)
    else ReadLines(now + [Stored(ParsePair(texts[0]).value)], texts[1..], footer)
  }

  function HeadLength(file: seq<Byte>): (n: nat)
    ensures n <= |file|
  {
    LineLength(file, HEAD_BUFFER_LEN - 1)
  }

  /** parse_header; of an empty file, the buffer holds what it happened to hold before. */
  predicate HeaderFits(file: seq<Byte>, stale: seq<Byte>) {
    MAGIC <= CString(if file == [] then stale else file[..HeadLength(file)])
  }

  /** db_read */
  function ReadFile(now: seq<Record>, file: seq<Byte>, stale: seq<Byte>): Reading {
    if HeaderFits(file, stale) then ReadLines(now, Lines(file[HeadLength(file)..]), FOOTER_LINE)
    else Reading(now, false)
  }

  // ---- Reading back what was written ----

  lemma {:induction false} LineLengthOf(line: seq<Byte>, rest: seq<Byte>, room: nat)
    requires Without(line, LF) && |line| < room
    ensures LineLength(line + [LF] + rest, room) == |line| + 1
  {
    if line != [] {
      assert (line + [LF] + rest)[1..] == line[1..] + [LF] + rest;
      LineLengthOf(line[1..], rest, room - 1);
    }
  }

  /** A line that fgets returns whole. */
  predicate FullLine(t: seq<Byte>) {
    0 < |t| < READ_BUFFER_LEN && t[|t| - 1] == LF && Without(t[..|t| - 1], LF) && NulFree(t)
  }

  lemma LinesFirst(t: seq<Byte>, rest: seq<Byte>)
    requires FullLine(t)
    ensures Lines(t + rest) == [t] + Lines(rest)
  {
    var line := t[..|t| - 1];
    assert t + rest == line + [LF] + rest;
    LineLengthOf(line, rest, READ_BUFFER_LEN - 1);
    assert (t + rest)[..|t|] == t && (t + rest)[|t|..] == rest;
    CStringNulFree(t);
  }

  lemma {:induction false} LinesJoin(texts: seq<seq<Byte>>, footer: seq<Byte>)
    requires forall i :: 0 <= i < |texts| ==> FullLine(texts[i])
    ensures Lines(Join(texts) + footer) == texts + Lines(footer)
  {
    if texts == [] {
      assert [] + footer == footer;
    } else {
      LinesJoin(texts[1..], footer);
      LinesFirst(texts[0], Join(texts[1..]) + footer);
      assert texts[0] + (Join(texts[1..]) + footer) == Join(texts) + footer;
      assert [texts[0]] + (texts[1..] + Lines(footer)) == texts + Lines(footer);
    }
  }

  /** A written record is one line, and splits at the right place. */
  lemma RecordLine(signed: bool, r: Record)
    requires StorableRecord(r) && |Serialize(signed, r)| < READ_BUFFER_LEN
    ensures var t := Serialize(signed, r);
      FullLine(t) && EQUALS in t && ParsePair(t) == Some(Escaped(signed, r))
  {
    EscapedClean(signed, r.name);
    EscapedClean(signed, r.value);
    PairLine(Escape(signed, r.name), Escape(signed, r.value));
  }

  lemma PairLine(name: seq<Byte>, value: seq<Byte>)
    requires name != [] && NulFree(name) && NulFree(value)
    requires Without(name, EQUALS) && Without(name, LF) && Without(value, LF)
    ensures var t := name + [EQUALS] + value + [LF];
      && |t| > 0 && t[|t| - 1] == LF && Without(t[..|t| - 1], LF) && NulFree(t) && EQUALS in t
      && ParsePair(t) == Some(Record(name, value))
  {
    var line := name + [EQUALS] + value;
    var t := line + [LF];
    assert t[..|t| - 1] == line && t[|name|] == EQUALS;
    SplitAt(name, value);
  }

  lemma SplitAt(name: seq<Byte>, value: seq<Byte>)
    requires Without(name, EQUALS)
    ensures var line := name + [EQUALS] + value; var eq := IndexOf(line, EQUALS);
      eq == |name| && line[..eq] == name && line[eq + 1..] == value
  {
    var line := name + [EQUALS] + value;
    assert line[|name|] == EQUALS;
    forall i | 0 <= i < |name| ensures line[i] != EQUALS {
      assert line[i] == name[i];
    }
  }

  function ReadBackRecord(r: Record): Record {
    Record(ReadBack(r.name), ReadBack(r.value))
  }

  function ReadBackRecords(lines: seq<Record>): seq<Record> {
    if lines == [] then [] else [ReadBackRecord(lines[0])] + ReadBackRecords(lines[1..])
  }

  lemma StoredReadBack(signed: bool, r: Record)
    requires NulFree(r.name) && NulFree(r.value)
    ensures Stored(Escaped(signed, r)) == ReadBackRecord(r)
  {
    UnescapeEscape(signed, r.name);
    UnescapeEscape(signed, r.value);
    ReadBackLength(r.name);
    ReadBackLength(r.value);
    CStringNulFree(ReadBack(r.name));
    CStringNulFree(ReadBack(r.value));
  }


  function StoredAll(pairs: seq<Record>): seq<Record> {
    if pairs == [] then [] else [Stored(pairs[0])] + StoredAll(pairs[1..])
  }

  /** Reading lines that can be parsed up to the footer. */
  lemma {:induction false} ReadParsed(now: seq<Record>, texts: seq<seq<Byte>>, pairs: seq<Record>, footer: seq<Byte>)
    requires |texts| == |pairs| + 1 && texts[|pairs|] == footer && |now| + |pairs| <= MAX_LINES
    requires forall i :: 0 <= i < |pairs| ==> texts[i] != footer && ParsePair(texts[i]) == Some(pairs[i])
    ensures ReadLines(now, texts, footer) == Reading(now + StoredAll(pairs), true)
    decreases |pairs|
  {
    if pairs != [] {
      ReadParsed(now + [Stored(pairs[0])], texts[1..], pairs[1..], footer);
      Regroup(now, [Stored(pairs[0])], StoredAll(pairs[1..]));
    }
  }

  lemma Regroup(a: seq<Record>, b: seq<Record>, c: seq<Record>)
    ensures (a + b) + c == a + (b + c)
  {
  }

  function Escaped(signed: bool, r: Record): Record {
    Record(Escape(signed, r.name), Escape(signed, r.value))
  }

  function EscapedAll(signed: bool, lines: seq<Record>): (r: seq<Record>)
    ensures |r| == |lines| && forall i :: 0 <= i < |lines| ==> r[i] == Escaped(signed, lines[i])
  {
    if lines == [] then [] else [Escaped(signed, lines[0])] + EscapedAll(signed, lines[1..])
  }

  lemma {:induction false} StoredEscaped(signed: bool, lines: seq<Record>)
    requires Storable(lines)
    ensures StoredAll(EscapedAll(signed, lines)) == ReadBackRecords(lines)
  {
    if lines != [] {
      StoredReadBack(signed, lines[0]);
      StoredEscaped(signed, lines[1..]);
      assert EscapedAll(signed, lines)[1..] == EscapedAll(signed, lines[1..]);
    }
  }

  lemma {:induction false} TextsFull(signed: bool, lines: seq<Record>)
    requires Storable(lines) && |Join(Texts(signed, lines))| < READ_BUFFER_LEN
    ensures forall i :: 0 <= i < |lines| ==>
              var t := Texts(signed, lines)[i];
              FullLine(t) && EQUALS in t && ParsePair(t) == Some(Escaped(signed, lines[i]))
  {
    if lines != [] {
      RecordLine(signed, lines[0]);
      TextsFull(signed, lines[1..]);
    }
  }

  /** Reading a written file gives its records in order, with every BEL followed by a BS. */
  lemma ReadImage(signed: bool, lines: seq<Record>, stale: seq<Byte>)
    requires Storable(lines) && |lines| <= MAX_LINES && |Image(signed, lines)| < READ_BUFFER_LEN
    ensures ReadFile([], Image(signed, lines), stale) == Reading(ReadBackRecords(lines), true)
  {
    var texts := Texts(signed, lines);
    TextsFull(signed, lines);
    FooterLine();
    LinesJoin(texts, FOOTER_LINE);
    ReadParsed([], texts + [FOOTER_LINE], EscapedAll(signed, lines), FOOTER_LINE);
    assert [] + ReadBackRecords(lines) == ReadBackRecords(lines);
    StoredEscaped(signed, lines);
    HeaderReads(Image(signed, lines), Join(texts) + FOOTER_LINE, stale);
  }

  lemma FooterLine()
    ensures EQUALS !in FOOTER_LINE && Lines(FOOTER_LINE) == [FOOTER_LINE]
  {
    LinesFirst(FOOTER_LINE, []);
    assert FOOTER_LINE + [] == FOOTER_LINE;
  }

  lemma HeaderReads(file: seq<Byte>, rest: seq<Byte>, stale: seq<Byte>)
    requires file == HEADER_LINE + rest
    ensures HeaderFits(file, stale) && file[HeadLength(file)..] == rest
  {
    assert file == MAGIC + [LF] + rest;
    LineLengthOf(MAGIC, rest, HEAD_BUFFER_LEN - 1);
    assert file[..4] == HEADER_LINE;
    CStringNulFree(HEADER_LINE);
  }

  lemma {:induction false} ReadBackSame(lines: seq<Record>)
    ensures ReadBackRecords(lines) == lines
            <==> forall i :: 0 <= i < |lines| ==> Without(lines[i].name, BEL) && Without(lines[i].value, BEL)
  {
    if lines != [] {
      ReadBackSame(lines[1..]);
      ReadBackLength(lines[0].name);
      ReadBackLength(lines[0].value);
      assert lines == [lines[0]] + lines[1..];
      assert ReadBackRecords(lines)[1..] == ReadBackRecords(lines[1..]);
    }
  }

  /** The file gives back exactly the records written if and only if none of them has a BEL. */
  lemma FileRoundTripIff(signed: bool, lines: seq<Record>, stale: seq<Byte>)
    requires Storable(lines) && |lines| <= MAX_LINES && |Image(signed, lines)| < READ_BUFFER_LEN
    ensures ReadFile([], Image(signed, lines), stale) == Reading(lines, true)
            <==> forall i :: 0 <= i < |lines| ==> Without(lines[i].name, BEL) && Without(lines[i].value, BEL)
  {
    ReadImage(signed, lines, stale);
    ReadBackSame(lines);
  }
}
