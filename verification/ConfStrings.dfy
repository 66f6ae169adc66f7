/**
 String values in the configuration file of package/config/confdata.c: the escaping loop of conf_write
 and the loop of conf_read that undoes it inside the line buffer.
 */
module ConfStrings {
  import opened CStrings
  import opened Expressions

  const QUOTE: Byte := 34

  predicate Special(b: Byte) {
    b == QUOTE || b == BACKSLASH
  }

  function Escape(s: seq<Byte>): seq<Byte> {
    if s == [] then []
    else (if Special(s[0]) then [BACKSLASH, s[0]] else [s[0]]) + Escape(s[1..])
  }

  /** strcspn(s, "\"\\") */
  function PlainRun(s: seq<Byte>): (n: nat)
    ensures n <= |s| && (n < |s| ==> Special(s[n]))
  {
    if s == [] || Special(s[0]) then 0 else 1 + PlainRun(s[1..])
  }

  lemma {:induction false} EscapePlain(s: seq<Byte>, n: nat)
    requires n <= PlainRun(s)
    ensures Escape(s) == s[..n] + Escape(s[n..])
  {
    if n > 0 {
      EscapePlain(s[1..], n - 1);
      assert s[1..][..n - 1] == s[1..n] && s[1..][n - 1..] == s[n..];
      assert s[..n] == [s[0]] + s[1..n];
    }
  }

  /** The loops of conf_write. */
  method WriteString(s: seq<Byte>) returns (out: seq<Byte>)
    requires NulFree(s)
    ensures out == Escape(s)
  {
    out := [];
    var str := 0;
    while true
      invariant str <= |s| && out + Escape(s[str..]) == Escape(s)
      invariant str == 0 || str == |s| || !Special(s[str])
      decreases |s| - str, if str < |s| && Special(s[str]) then 1 else 0
    {
      var l := PlainRun(s[str..]);
      PlainOut(out, s, str, l);
      out := out + s[str..str + l];
      str := str + l;
      out, str := WriteSpecials(s, out, str);
      if CharAt(s, str) == 0 {
        break;
      }
    }
  }

  /** The inner loop. */
  method WriteSpecials(s: seq<Byte>, out0: seq<Byte>, str0: nat) returns (out: seq<Byte>, str: nat)
    requires NulFree(s) && str0 <= |s| && out0 + Escape(s[str0..]) == Escape(s)
    ensures str0 <= str <= |s| && out + Escape(s[str..]) == Escape(s)
    ensures str < |s| ==> !Special(s[str])
    ensures str0 < |s| && Special(s[str0]) ==> str0 < str
  {
    out, str := out0, str0;
    while Special(CharAt(s, str))
      invariant str0 <= str <= |s| && out + Escape(s[str..]) == Escape(s)
      invariant str0 < |s| && Special(s[str0]) ==> str0 < str || Special(CharAt(s, str))
      decreases |s| - str
    {
      SpecialOut(out, s, str);
      out := out + [BACKSLASH, s[str]];
      str := str + 1;
    }
  }

  lemma PlainOut(out: seq<Byte>, s: seq<Byte>, str: nat, l: nat)
    requires str <= |s| && l <= PlainRun(s[str..])
    ensures out + Escape(s[str..]) == (out + s[str..str + l]) + Escape(s[str + l..])
  {
    EscapePlain(s[str..], l);
    assert s[str..][l..] == s[str + l..] && s[str..][..l] == s[str..str + l];
  }

  lemma SpecialOut(out: seq<Byte>, s: seq<Byte>, str: nat)
    requires str < |s| && Special(s[str])
    ensures out + Escape(s[str..]) == (out + [BACKSLASH, s[str]]) + Escape(s[str + 1..])
  {
    assert s[str..][1..] == s[str + 1..];
    assert Escape(s[str..]) == [BACKSLASH, s[str]] + Escape(s[str + 1..]);
  }

  /** The value that starts behind the opening quote, if there is a closing one.  A backslash makes
      the next byte an ordinary one. */
  function ReadString(t: seq<Byte>): Option<seq<Byte>> {
    if t == [] || t == [BACKSLASH] then None
    else if t[0] == QUOTE then Some([])
    else
      var n := if t[0] == BACKSLASH then 1 else 0;
      var rest := ReadString(t[n + 1..]);
      if rest.None? then None else Some([t[n]] + rest.value)
  }

  /** Whatever follows, the value is read back and the reading stops at the true closing quote. */
  lemma {:induction false} ReadEscape(s: seq<Byte>, more: seq<Byte>)
    ensures ReadString(Escape(s) + ([QUOTE] + more)) == Some(s)
  {
    if s == [] {
      assert Escape(s) + ([QUOTE] + more) == [QUOTE] + more;
    } else {
      var e, rest := if Special(s[0]) then [BACKSLASH, s[0]] else [s[0]], Escape(s[1..]) + ([QUOTE] + more);
      ReadEscape(s[1..], more);
      assert Escape(s) + ([QUOTE] + more) == e + rest;
      ReadOne(s[0], e, rest, s[1..]);
      assert s == [s[0]] + s[1..];
    }
  }

  lemma ReadOne(b: Byte, e: seq<Byte>, rest: seq<Byte>, value: seq<Byte>)
    requires e == if Special(b) then [BACKSLASH, b] else [b]
    requires ReadString(rest) == Some(value)
    ensures ReadString(e + rest) == Some([b] + value)
  {
    assert (e + rest)[|e|..] == rest;
  }

  /** Without its closing quote the value is rejected. */
  lemma {:induction false} ReadOpen(s: seq<Byte>)
    ensures ReadString(Escape(s)) == None
  {
    if s != [] {
      ReadOpen(s[1..]);
      var t := Escape(s);
      if Special(s[0]) {
        assert t == [BACKSLASH, s[0]] + Escape(s[1..]) && t[2..] == Escape(s[1..]);
      } else {
        assert t[1..] == Escape(s[1..]);
      }
    }
  }

  /** A line without its newline. */
  function FirstLine(t: seq<Byte>): seq<Byte> {
    if t == [] || t[0] == LF then [] else [t[0]] + FirstLine(t[1..])
  }

  lemma {:induction false} FirstLineOf(line: seq<Byte>, more: seq<Byte>)
    requires Without(line, LF)
    ensures FirstLine(line + ([LF] + more)) == line
  {
    if line == [] {
      assert [] + ([LF] + more) == [LF] + more;
    } else {
      assert (line + ([LF] + more))[1..] == line[1..] + ([LF] + more);
      FirstLineOf(line[1..], more);
    }
  }

  /** Escaping adds no newline, and cutting at the first newline commutes with it. */
  lemma {:induction false} FirstLineEscape(s: seq<Byte>, more: seq<Byte>)
    ensures Without(s, LF) ==> FirstLine(Escape(s) + ([QUOTE] + ([LF] + more))) == Escape(s) + ([QUOTE] + [])
    ensures !Without(s, LF) ==> FirstLine(Escape(s) + ([QUOTE] + ([LF] + more))) == Escape(FirstLine(s))
  {
    var tail := [QUOTE] + ([LF] + more);
    if s == [] {
      assert Escape(s) + tail == [QUOTE] + ([LF] + more);
      FirstLineOf([QUOTE], more);
    } else {
      FirstLineEscape(s[1..], more);
      assert s == [s[0]] + s[1..];
      FirstLineStep(s[0], Escape(s[1..]), tail);
      Join([s[0]], Escape(s[1..]), [QUOTE] + []);
      Join([BACKSLASH, s[0]], Escape(s[1..]), [QUOTE] + []);
    }
  }

  lemma FirstLineStep(b: Byte, e: seq<Byte>, tail: seq<Byte>)
    ensures var c := if Special(b) then [BACKSLASH, b] else [b];
      FirstLine((c + e) + tail) == if b == LF then [] else c + FirstLine(e + tail)
  {
    var rest := e + tail;
    if Special(b) {
      assert ([BACKSLASH, b] + e) + tail == [BACKSLASH, b] + rest;
      assert ([BACKSLASH, b] + rest)[1..] == [b] + rest && ([b] + rest)[1..] == rest;
      assert FirstLine([b] + rest) == [b] + FirstLine(rest);
    } else {
      assert ([b] + e) + tail == [b] + rest && ([b] + rest)[1..] == rest;
    }
  }

  lemma Join(a: seq<Byte>, b: seq<Byte>, c: seq<Byte>)
    ensures (a + b) + c == a + (b + c)
  {
  }

  /** What conf_write writes behind the opening quote is read back by conf_read from the line it
      starts on, whatever follows, if and only if the value has no newline. */
  lemma ConfRoundTripIff(s: seq<Byte>, more: seq<Byte>)
    ensures ReadString(FirstLine(Escape(s) + ([QUOTE] + ([LF] + more)))) == Some(s) <==> Without(s, LF)
  {
    FirstLineEscape(s, more);
    if Without(s, LF) {
      ReadEscape(s, []);
    } else {
      ReadOpen(FirstLine(s));
    }
  }

  // ---- In the line buffer ----

  /** The C string at p is t. */
  ghost predicate Holds(line: seq<Byte>, p: nat, t: seq<Byte>) {
    NulFree(t) && p + |t| < |line| && line[p..p + |t|] == t && line[p + |t|] == 0
  }

  /** Behind the bytes in done, which have been read and stand at p, follows the rest of the string. */
  ghost predicate Buffered(line: seq<Byte>, p: nat, done: seq<Byte>, rest: seq<Byte>) {
    NulFree(done) && p + |done| <= |line| && line[p..p + |done|] == done && Holds(line, p + |done|, rest)
  }

  /** Reading the rest completes the reading of t. */
  ghost predicate Completes(t: seq<Byte>, done: seq<Byte>, rest: seq<Byte>) {
    ReadString(t) == Prepend(done, ReadString(rest))
  }

  /** Where the loop of conf_read is: behind done, with rest still to come; or, once it has squeezed out a
      backslash at the very end of the string, on the NUL that follows. */
  ghost predicate Scanning(line: seq<Byte>, p: nat, t: seq<Byte>, start: nat, done: seq<Byte>, rest: seq<Byte>) {
    && p <= start && Buffered(line, start, done, rest)
    && if start == p then Completes(t, done, rest) else rest == [] && ReadString(t).None?
  }

  /** The loop of conf_read for a string value: backslashes are squeezed out where they stand, and the
      closing quote becomes the end of the string. */
  method ReadInPlace(line: array<Byte>, p: nat, ghost t: seq<Byte>) returns (ok: bool)
    requires Holds(line[..], p, t)
    modifies line
    ensures ok == ReadString(t).Some?
    ensures ok ==> Holds(line[..], p, ReadString(t).value)
    ensures line[..][..p] == old(line[..])[..p]
  {
    var over, p2 := false, p;
    ok := false;
    ghost var start: nat := p;
    ghost var done, rest, line0 := [], t, line[..];
    PrependNothing(ReadString(t));
    while !over
      invariant |line[..]| == |line0| && line[..][..p] == line0[..p]
      invariant if over then ok == ReadString(t).Some? && (ok ==> Holds(line[..], p, ReadString(t).value))
                else Scanning(line[..], p, t, start, done, rest) && p2 == start + |done|
      decreases !over, |rest|
    {
      over, ok, p2, start, done, rest := ReadStep(line, p, p2, t, start, done, rest);
    }
  }

  /** One round of it: over tells whether it was the last. */
  method ReadStep(line: array<Byte>, p: nat, p2: nat, ghost t: seq<Byte>, ghost start: nat, ghost done: seq<Byte>,
                  ghost rest: seq<Byte>)
    returns (over: bool, ok: bool, p2': nat, ghost start': nat, ghost done': seq<Byte>, ghost rest': seq<Byte>)
    requires Scanning(line[..], p, t, start, done, rest) && p2 == start + |done|
    modifies line
    ensures line[..][..p] == old(line[..])[..p]
    ensures over ==> ok == ReadString(t).Some? && (ok ==> Holds(line[..], p, ReadString(t).value))
    ensures !over ==>
      Scanning(line[..], p, t, start', done', rest') && p2' == start' + |done'| && |rest'| < |rest|
  {
    ScanOver(line[..], p, t, start, done, rest);
    var found, length;
    found, p2', length, done', rest' := Advance(line, start, p2, done, rest);
    over, ok, start' := true, false, start;
    if !found {
      return;
    }
    if line[p2'] == QUOTE {
      CompletesQuote(t, done', rest');
      CloseAt(line, p, p2', done', rest');
      ok := true;
      return;
    }
    over := false;
    ghost var before := line[..];
    Squeeze(line, p2', length);
    start', done', rest' := ScanOn(before, p, t, start, done', rest');
    p2' := p2' + 1;
  }

  /** Up to the next quote or backslash. */
  lemma ScanOver(line: seq<Byte>, p: nat, t: seq<Byte>, start: nat, done: seq<Byte>, rest: seq<Byte>)
    requires Scanning(line, p, t, start, done, rest)
    ensures var k := PlainRun(rest);
      && (k == |rest| ==> ReadString(t).None?)
      && (k < |rest| ==> start == p && Completes(t, done + rest[..k], rest[k..]))
  {
    if start == p { CompletesSkip(t, done, rest); }
  }

  /** Over a backslash, which is squeezed out of the line. */
  lemma ScanOn(line: seq<Byte>, p: nat, t: seq<Byte>, start: nat, done: seq<Byte>, rest: seq<Byte>)
    returns (start': nat, done': seq<Byte>, rest': seq<Byte>)
    requires start == p && Buffered(line, p, done, rest) && Completes(t, done, rest)
    requires rest != [] && rest[0] == BACKSLASH
    ensures var line' := WithoutByte(line, p + |done|, |rest|);
      && |line'| == |line| && line'[..p] == line[..p]
      && Scanning(line', p, t, start', done', rest') && start' + |done'| == p + |done| + 1 && |rest'| < |rest|
  {
    if |rest| == 1 {
      OnlyBackslash(t, done, rest);
      LastSqueezed(line, p + |done|, rest);
      start', done', rest' := p + |done| + 1, [], [];
      assert WithoutByte(line, p + |done|, 1)[..p] == line[..p];
    } else {
      CompletesBackslash(t, done, rest);
      Squeezed(line, p, done, rest);
      start', done', rest' := p, done + [rest[1]], rest[2..];
    }
  }

  /** strpbrk(p2, "\"\\"): to the next quote or backslash, which is length bytes before the end of the string. */
  method Advance(line: array<Byte>, ghost p: nat, p2: nat, ghost done: seq<Byte>, ghost rest: seq<Byte>)
    returns (found: bool, p2': nat, length: nat, ghost done': seq<Byte>, ghost rest': seq<Byte>)
    requires Buffered(line[..], p, done, rest) && p2 == p + |done|
    ensures done' == done + rest[..PlainRun(rest)] && rest' == rest[PlainRun(rest)..]
    ensures Buffered(line[..], p, done', rest') && p2' == p + |done'| && length == |rest'|
    ensures found <==> rest' != []
    ensures found ==> p2' < line.Length && line[p2'] == rest'[0]
  {
    HoldsString(line[..], p2, rest);
    var s := CString(line[..][p2..]);
    var k := PlainRun(s);
    found, p2', length := k < |s|, p2 + k, |s| - k;
    done', rest' := done + rest[..k], rest[k..];
    SkipBytes(line[..], p, done, rest, k);
    if found {
      AtStart(line[..], p2', rest');
    }
  }

  lemma AtStart(line: seq<Byte>, p2: nat, rest: seq<Byte>)
    requires Holds(line, p2, rest) && rest != []
    ensures p2 < |line| && line[p2] == rest[0]
  {
    assert line[p2..p2 + |rest|][0] == line[p2];
  }

  method CloseAt(line: array<Byte>, p: nat, p2: nat, ghost done: seq<Byte>, ghost rest: seq<Byte>)
    requires Buffered(line[..], p, done, rest) && p2 == p + |done|
    modifies line
    ensures Holds(line[..], p, done) && line[..][..p] == old(line[..])[..p]
  {
    CloseString(line[..], line[..][p2 := 0], p, done, rest);
    line[p2] := 0;
  }

  /** memmove(p2, p2 + 1, strlen(p2)), where the string at p2 has this length */
  method Squeeze(line: array<Byte>, p2: nat, length: nat)
    requires p2 + length < line.Length
    modifies line
    ensures line[..] == WithoutByte(old(line[..]), p2, length)
  {
    forall i | p2 <= i < p2 + length {
      line[i] := line[i + 1];
    }
    assert forall i :: p2 <= i < p2 + length ==> line[i] == old(line[..])[p2 + 1..p2 + length + 1][i - p2];
  }

  function WithoutByte(line: seq<Byte>, p2: nat, length: nat): seq<Byte>
    requires p2 + length < |line|
  {
    line[..p2] + line[p2 + 1..p2 + length + 1] + line[p2 + length..]
  }

  lemma HoldsString(line: seq<Byte>, p: nat, t: seq<Byte>)
    requires Holds(line, p, t)
    ensures CString(line[p..]) == t
  {
    UpToNul(line[p..], t);
  }

  lemma {:induction false} UpToNul(s: seq<Byte>, t: seq<Byte>)
    requires NulFree(t) && |t| < |s| && s[..|t|] == t && s[|t|] == 0
    ensures CString(s) == t
  {
    if t != [] {
      assert s[0] == s[..|t|][0] == t[0];
      assert s[1..][..|t| - 1] == s[..|t|][1..];
      UpToNul(s[1..], t[1..]);
    }
  }

  /** Stepping over ordinary bytes. */
  lemma SkipBytes(line: seq<Byte>, p: nat, done: seq<Byte>, rest: seq<Byte>, k: nat)
    requires Buffered(line, p, done, rest) && k <= |rest|
    ensures Buffered(line, p, done + rest[..k], rest[k..])
  {
    var q := p + |done|;
    assert line[q..q + k] == line[q..q + |rest|][..k];
    assert line[p..q + k] == line[p..q] + line[q..q + k];
    assert line[q + k..q + |rest|] == line[q..q + |rest|][k..];
  }

  /** The closing quote becomes the NUL. */
  lemma CloseString(line: seq<Byte>, line': seq<Byte>, p: nat, done: seq<Byte>, rest: seq<Byte>)
    requires Buffered(line, p, done, rest) && line' == line[p + |done| := 0]
    ensures Holds(line', p, done) && line'[..p] == line[..p]
  {
    assert line'[p..p + |done|] == line[p..p + |done|];
  }

  lemma WithoutByteAt(line: seq<Byte>, p2: nat, length: nat, i: nat)
    requires p2 + length < |line| && i < |line|
    ensures WithoutByte(line, p2, length)[i] == line[if p2 <= i < p2 + length then i + 1 else i]
  {
  }

  /** A backslash goes, and the byte behind it is kept. */
  lemma Squeezed(line: seq<Byte>, p: nat, done: seq<Byte>, rest: seq<Byte>)
    requires Buffered(line, p, done, rest) && |rest| >= 2
    ensures var line' := WithoutByte(line, p + |done|, |rest|);
      |line'| == |line| && line'[..p] == line[..p] && Buffered(line', p, done + [rest[1]], rest[2..])
  {
    var q := p + |done|;
    var line' := WithoutByte(line, q, |rest|);
    assert line'[p..q] == line[p..q];
    SqueezedBytes(line, q, rest);
    assert line'[p..q + 1] == line'[p..q] + [line'[q]];
  }

  /** A backslash at the very end goes, and the NUL behind it stays. */
  lemma LastSqueezed(line: seq<Byte>, p2: nat, rest: seq<Byte>)
    requires Holds(line, p2, rest) && |rest| == 1
    ensures var line' := WithoutByte(line, p2, 1);
      |line'| == |line| && line'[..p2] == line[..p2] && Holds(line', p2 + 1, [])
  {
    WithoutByteAt(line, p2, 1, p2 + 1);
  }

  lemma SqueezedBytes(line: seq<Byte>, q: nat, rest: seq<Byte>)
    requires Holds(line, q, rest) && |rest| >= 2
    ensures WithoutByte(line, q, |rest|)[q] == rest[1] && Holds(WithoutByte(line, q, |rest|), q + 1, rest[2..])
  {
    var line' := WithoutByte(line, q, |rest|);
    forall j | q <= j < q + |rest| ensures line'[j] == if j == q + |rest| - 1 then 0 else rest[j - q + 1] {
      WithoutByteAt(line, q, |rest|, j);
      if j < q + |rest| - 1 {
        assert line[j + 1] == line[q..q + |rest|][j - q + 1];
      }
    }
    assert line'[q + 1..q + |rest| - 1] == rest[2..];
  }

  lemma FirstOf(s: seq<Byte>, k: nat)
    requires 0 < k <= |s|
    ensures [s[0]] + s[1..][..k - 1] == s[..k] && s[1..][k - 1..] == s[k..]
  {
  }

  /** Ordinary bytes are read as they are. */
  lemma {:induction false} ReadPlain(rest: seq<Byte>, k: nat)
    requires k <= PlainRun(rest)
    ensures ReadString(rest) == Prepend(rest[..k], ReadString(rest[k..]))
    decreases k
  {
    PrependNothing(ReadString(rest));
    if k > 0 {
      ReadPlain(rest[1..], k - 1);
      PrependTwice([rest[0]], rest[1..][..k - 1], ReadString(rest[k..]));
      FirstOf(rest, k);
    }
  }

  lemma CompletesSkip(t: seq<Byte>, done: seq<Byte>, rest: seq<Byte>)
    requires Completes(t, done, rest)
    ensures var k := PlainRun(rest);
      Completes(t, done + rest[..k], rest[k..]) && (k == |rest| ==> ReadString(t).None?)
  {
    var k := PlainRun(rest);
    ReadPlain(rest, k);
    PrependTwice(done, rest[..k], ReadString(rest[k..]));
  }

  lemma CompletesQuote(t: seq<Byte>, done: seq<Byte>, rest: seq<Byte>)
    requires Completes(t, done, rest) && rest != [] && rest[0] == QUOTE
    ensures ReadString(t) == Some(done)
  {
    assert done + [] == done;
  }

  lemma CompletesBackslash(t: seq<Byte>, done: seq<Byte>, rest: seq<Byte>)
    requires Completes(t, done, rest) && |rest| >= 2 && rest[0] == BACKSLASH
    ensures Completes(t, done + [rest[1]], rest[2..])
  {
    PrependTwice(done, [rest[1]], ReadString(rest[2..]));
  }

  lemma OnlyBackslash(t: seq<Byte>, done: seq<Byte>, rest: seq<Byte>)
    requires Completes(t, done, rest) && rest == [BACKSLASH]
    ensures ReadString(t).None?
  {
  }

  lemma PrependTwice(a: seq<Byte>, b: seq<Byte>, r: Option<seq<Byte>>)
    ensures Prepend(a + b, r) == Prepend(a, Prepend(b, r))
  {
    if r.Some? {
      assert (a + b) + r.value == a + (b + r.value);
    }
  }

  lemma PrependNothing(r: Option<seq<Byte>>)
    ensures Prepend([], r) == r
  {
    if r.Some? {
      assert [] + r.value == r.value;
    }
  }

  function Prepend(done: seq<Byte>, rest: Option<seq<Byte>>): Option<seq<Byte>> {
    if rest.None? then None else Some(done + rest.value)
  }
}
