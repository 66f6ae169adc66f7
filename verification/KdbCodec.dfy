/**
 The escaping of package/webface/kdb.c: str_escape and str_unescape.
 */
module KdbCodec {
  import opened CStrings

  const BEL: Byte := 7
  const BS: Byte := 8
  const SPACE: Byte := 32
  const HASH: Byte := 35
  const EQUALS: Byte := 61

  /** The letter after the backslash: \a \b \t \n \v \f \r. */
  function Letter(b: Byte): Byte {
    match b
    case 7 => 97
    case 8 => 98
    case 9 => 116
    case 10 => 110
    case 11 => 118
    case 12 => 102
    case 13 => 114
    case _ => b
  }

  /** What the letter after a backslash stands for. */
  function Meant(c: Byte): Byte {
    match c
    case 97 => 7
    case 98 => 8
    case 116 => 9
    case 110 => 10
    case 118 => 11
    case 102 => 12
    case 114 => 13
    case _ => c
  }

  /** A char promoted to int, as far as the code looks: with sign extension where char is signed. */
  function Promoted(signed: bool, b: Byte): bv16 {
    if signed && b >= 128 then 0xFF00 | (b as bv16) else b as bv16
  }

  /** ((c >> shift) & 07) */
  function OctalDigit(signed: bool, b: Byte, shift: nat): Byte
    requires shift <= 6
  {
    ((Promoted(signed, b) >> shift) & 7) as bv8
  }

  /** c <= ' ' || c >= 0177, where a signed char from 128 on is negative */
  predicate NotPrintable(signed: bool, b: Byte) {
    if signed && b >= 128 then true else b <= SPACE || b >= 127
  }

  predicate IsOctal(b: Byte) {
    48 <= b <= 55
  }

  function EscapeByte(signed: bool, b: Byte): (e: seq<Byte>)
    ensures e != []
  {
    if b == BEL then [BACKSLASH, Letter(BEL), BACKSLASH, Letter(BS)]
    else if BS <= b <= 13 || b == BACKSLASH || b == 34 || b == 39 then [BACKSLASH, Letter(b)]
    else if NotPrintable(signed, b) || b == EQUALS || b == HASH then
      [BACKSLASH, 48 + OctalDigit(signed, b, 6), 48 + OctalDigit(signed, b, 3), 48 + OctalDigit(signed, b, 0)]
    else [b]
  }

  function Escape(signed: bool, s: seq<Byte>): seq<Byte> {
    if s == [] then [] else EscapeByte(signed, s[0]) + Escape(signed, s[1..])
  }

  /** How many of the first (at most limit) bytes are octal digits. */
  function OctalRun(s: seq<Byte>, limit: nat): (n: nat)
    ensures n <= limit && n <= |s|
    ensures forall i :: 0 <= i < n ==> IsOctal(s[i])
    ensures n < limit && n < |s| ==> !IsOctal(s[n])
  {
    if limit == 0 || s == [] || !IsOctal(s[0]) then 0 else 1 + OctalRun(s[1..], limit - 1)
  }

  /** acc * 8 + digit, in one byte */
  function Shifted(acc: Byte, digit: Byte): Byte {
    acc * 8 + (digit - 48)
  }

  /** The number these digits stand for, in one byte. */
  function OctalValue(acc: Byte, digits: seq<Byte>): Byte
    decreases |digits|
  {
    if digits == [] then acc else OctalValue(Shifted(acc, digits[0]), digits[1..])
  }

  /** The bytes str_unescape writes.  A backslash at the very end of the string adds nothing. */
  function Unescape(s: seq<Byte>): seq<Byte> {
    if s == [] then []
    else if s[0] != BACKSLASH then [s[0]] + Unescape(s[1..])
    else if |s| == 1 then []
    else if IsOctal(s[1]) then
      var n := OctalRun(s[1..], 3);
      [OctalValue(0, s[1..][..n])] + Unescape(s[1..][n..])
    else [Meant(s[1])] + Unescape(s[2..])
  }

  // ---- The loops ----

  lemma {:induction false} EscapeAppend(signed: bool, s: seq<Byte>, b: Byte)
    ensures Escape(signed, s + [b]) == Escape(signed, s) + EscapeByte(signed, b)
  {
    if s == [] {
      assert [b][1..] == [];
    } else {
      assert (s + [b])[1..] == s[1..] + [b];
      EscapeAppend(signed, s[1..], b);
    }
  }

  /** str_escape */
  method StrEscape(signed: bool, source: seq<Byte>) returns (dest: seq<Byte>)
    requires NulFree(source)
    ensures dest == Escape(signed, source)
  {
    var p := 0;
    dest := [];
    while CharAt(source, p) != 0
      invariant p <= |source| && dest == Escape(signed, source[..p])
      decreases |source| - p
    {
      assert source[..p + 1] == source[..p] + [source[p]];
      EscapeAppend(signed, source[..p], source[p]);
      var e := EscapeOne(signed, source[p]);
      dest := dest + e;
      p := p + 1;
    }
    assert source[..p] == source;
  }

  /** The switch of that loop: the case of BEL goes on into the one of BS. */
  method EscapeOne(signed: bool, b: Byte) returns (q: seq<Byte>)
    ensures q == EscapeByte(signed, b)
  {
    q := [];
    if b == BEL {
      q := q + [BACKSLASH, Letter(b)];
    }
    if b == BEL || b == BS {
      q := q + [BACKSLASH, Letter(BS)];
    } else if BS < b <= 13 {
      q := q + [BACKSLASH, Letter(b)];
    } else if b == BACKSLASH || b == 34 || b == 39 {
      q := q + [BACKSLASH, b];
    } else if NotPrintable(signed, b) || b == EQUALS || b == HASH {
      q := q + [BACKSLASH, 48 + OctalDigit(signed, b, 6), 48 + OctalDigit(signed, b, 3), 48 + OctalDigit(signed, b, 0)];
    } else {
      q := q + [b];
    }
  }

  /** str_unescape.  Where the string ends in a lone backslash the loop stops here; the code reads on
      past the terminating NUL. */
  method StrUnescape(source: seq<Byte>) returns (dest: seq<Byte>)
    requires NulFree(source)
    ensures dest == Unescape(source)
  {
    var p := 0;
    dest := [];
    while CharAt(source, p) != 0
      invariant p <= |source| && dest + Unescape(source[p..]) == Unescape(source)
      decreases |source| - p
    {
      if source[p] == BACKSLASH && p + 1 == |source| {
        break;
      }
      var b, next := UnescapeOne(source, p);
      UnescapeStep(dest, source, p, next, b);
      dest := dest + [b];
      p := next;
    }
  }

  /** The body of that loop: one byte, written as itself or as an escape. */
  method UnescapeOne(source: seq<Byte>, start: nat) returns (b: Byte, next: nat)
    requires NulFree(source) && start < |source| && (source[start] == BACKSLASH ==> start + 1 < |source|)
    ensures start < next <= |source|
    ensures Unescape(source[start..]) == [b] + Unescape(source[next..])
  {
    var p := start;
    ghost var s := source[start..];
    if source[p] == BACKSLASH {
      p := p + 1;
      assert s[1..] == source[p..] && s[1] == source[p];
      if IsOctal(source[p]) {
        b, next := ReadOctal(source, p);
        assert s[1..][next - p..] == source[next..] && s[1..][..next - p] == source[p..next];
        return;
      }
      b := Meant(source[p]);
      assert s[2..] == source[p + 1..];
    } else {
      b := source[p];
      assert s[1..] == source[p + 1..];
    }
    next := p + 1;
  }

  /** At most three octal digits. */
  method ReadOctal(source: seq<Byte>, octal: nat) returns (b: Byte, p: nat)
    requires NulFree(source) && octal <= |source|
    ensures p == octal + OctalRun(source[octal..], 3) <= |source|
    ensures b == OctalValue(0, source[octal..p])
  {
    b, p := 0, octal;
    while p < octal + 3 && IsOctal(CharAt(source, p))
      invariant octal <= p <= octal + 3 && p <= |source|
      invariant OctalRun(source[octal..], 3) == p - octal + OctalRun(source[p..], octal + 3 - p)
      invariant b == OctalValue(0, source[octal..p])
      decreases octal + 3 - p
    {
      assert source[p..][1..] == source[p + 1..];
      assert source[octal..p + 1] == source[octal..p] + [source[p]];
      OctalAppend(0, source[octal..p], source[p]);
      b := Shifted(b, source[p]);
      p := p + 1;
    }
  }

  lemma {:induction false} OctalAppend(acc: Byte, digits: seq<Byte>, d: Byte)
    ensures OctalValue(acc, digits + [d]) == Shifted(OctalValue(acc, digits), d)
    decreases |digits|
  {
    if digits == [] {
      assert [d][1..] == [];
    } else {
      assert (digits + [d])[1..] == digits[1..] + [d];
      OctalAppend(Shifted(acc, digits[0]), digits[1..], d);
    }
  }

  lemma UnescapeStep(dest: seq<Byte>, s: seq<Byte>, p: nat, next: nat, b: Byte)
    requires p <= next <= |s| && dest + Unescape(s[p..]) == Unescape(s)
    requires Unescape(s[p..]) == [b] + Unescape(s[next..])
    ensures (dest + [b]) + Unescape(s[next..]) == Unescape(s)
  {
    assert (dest + [b]) + Unescape(s[next..]) == dest + ([b] + Unescape(s[next..]));
  }

  // ---- Round trip ----

  /** What a byte reads back as: the case of BEL falls through into the one of BS. */
  function ReadBackByte(b: Byte): seq<Byte> {
    if b == BEL then [BEL, BS] else [b]
  }

  function ReadBack(s: seq<Byte>): seq<Byte> {
    if s == [] then [] else ReadBackByte(s[0]) + ReadBack(s[1..])
  }

  lemma OctalDigits(signed: bool, b: Byte)
    ensures var d2, d1, d0 := OctalDigit(signed, b, 6), OctalDigit(signed, b, 3), OctalDigit(signed, b, 0);
      d2 < 8 && d1 < 8 && d0 < 8 && (d2 * 8 + d1) * 8 + d0 == b
  {
  }

  lemma OctalReads(d2: Byte, d1: Byte, d0: Byte, rest: seq<Byte>)
    requires d2 < 8 && d1 < 8 && d0 < 8
    ensures Unescape([BACKSLASH, 48 + d2, 48 + d1, 48 + d0] + rest) == [(d2 * 8 + d1) * 8 + d0] + Unescape(rest)
  {
    var e: seq<Byte> := [BACKSLASH, 48 + d2, 48 + d1, 48 + d0];
    var s := e + rest;
    DigitOctal(d2);
    DigitOctal(d1);
    DigitOctal(d0);
    ThreeDigits(s[1..]);
    assert s[1..][3..] == rest;
    OctalOfThree(s[1..][..3], d2, d1, d0);
  }

  lemma DigitOctal(d: Byte)
    requires d < 8
    ensures IsOctal(48 + d) && (48 + d) - 48 == d
  {
  }

  lemma ThreeDigits(t: seq<Byte>)
    requires |t| >= 3 && IsOctal(t[0]) && IsOctal(t[1]) && IsOctal(t[2])
    ensures OctalRun(t, 3) == 3
  {
    assert OctalRun(t[1..][1..][1..], 0) == 0;
    assert OctalRun(t[1..][1..], 1) == 1;
    assert OctalRun(t[1..], 2) == 2;
  }

  lemma OctalOfThree(t: seq<Byte>, d2: Byte, d1: Byte, d0: Byte)
    requires d2 < 8 && d1 < 8 && d0 < 8 && t == [48 + d2, 48 + d1, 48 + d0]
    ensures OctalValue(0, t) == (d2 * 8 + d1) * 8 + d0
  {
    DigitOctal(d2);
    DigitOctal(d1);
    DigitOctal(d0);
    assert Shifted(0, t[0]) == d2;
    assert Shifted(d2, t[1]) == d2 * 8 + d1;
    assert OctalValue(d2, t[1..]) == OctalValue(d2 * 8 + d1, t[1..][1..]);
    assert OctalValue(d2 * 8 + d1, t[1..][1..]) == OctalValue(Shifted(d2 * 8 + d1, t[2]), []);
  }

  lemma LetterReads(b: Byte, rest: seq<Byte>)
    requires BS <= b <= 13 || b == BEL || b == BACKSLASH || b == 34 || b == 39
    ensures Unescape([BACKSLASH, Letter(b)] + rest) == [b] + Unescape(rest)
  {
    var s := [BACKSLASH, Letter(b)] + rest;
    assert s[2..] == rest && s[1] == Letter(b) && !IsOctal(s[1]) && Meant(s[1]) == b;
  }

  lemma BelReads(rest: seq<Byte>)
    ensures Unescape([BACKSLASH, Letter(BEL), BACKSLASH, Letter(BS)] + rest) == [BEL, BS] + Unescape(rest)
  {
    var tail := [BACKSLASH, Letter(BS)] + rest;
    assert [BACKSLASH, Letter(BEL), BACKSLASH, Letter(BS)] + rest == [BACKSLASH, Letter(BEL)] + tail;
    LetterReads(BEL, tail);
    LetterReads(BS, rest);
    assert [BEL] + ([BS] + Unescape(rest)) == [BEL, BS] + Unescape(rest);
  }

  lemma ByteReads(signed: bool, b: Byte, rest: seq<Byte>)
    ensures Unescape(EscapeByte(signed, b) + rest) == ReadBackByte(b) + Unescape(rest)
  {
    var e := EscapeByte(signed, b);
    if b == BEL {
      BelReads(rest);
    } else if |e| == 2 {
      LetterReads(b, rest);
    } else if |e| == 4 {
      OctalDigits(signed, b);
      OctalReads(OctalDigit(signed, b, 6), OctalDigit(signed, b, 3), OctalDigit(signed, b, 0), rest);
    } else {
      assert (e + rest)[1..] == rest;
    }
  }

  /** Unescaping an escaped string gives it back with every BEL followed by a BS, whether char is
      signed or not. */
  lemma {:induction false} UnescapeEscape(signed: bool, s: seq<Byte>)
    ensures Unescape(Escape(signed, s)) == ReadBack(s)
  {
    if s != [] {
      ByteReads(signed, s[0], Escape(signed, s[1..]));
      UnescapeEscape(signed, s[1..]);
    }
  }

  lemma {:induction false} ReadBackLength(s: seq<Byte>)
    ensures |ReadBack(s)| >= |s|
    ensures Without(s, BEL) ==> ReadBack(s) == s
    ensures !Without(s, BEL) ==> |ReadBack(s)| > |s|
    ensures NulFree(s) ==> NulFree(ReadBack(s))
  {
    if s != [] {
      assert s == [s[0]] + s[1..];
      ReadBackLength(s[1..]);
    }
  }

  /** Exactly the strings without BEL survive. */
  lemma RoundTripIff(signed: bool, s: seq<Byte>)
    ensures Unescape(Escape(signed, s)) == s <==> Without(s, BEL)
  {
    UnescapeEscape(signed, s);
    ReadBackLength(s);
  }

  /** A printable byte that separates nothing in the file. */
  predicate Clean(b: Byte) {
    SPACE < b < 127 && b != EQUALS && b != HASH
  }

  predicate AllClean(s: seq<Byte>) {
    forall i :: 0 <= i < |s| ==> Clean(s[i])
  }

  lemma EscapeByteClean(signed: bool, b: Byte)
    ensures AllClean(EscapeByte(signed, b))
  {
    var e := EscapeByte(signed, b);
    if |e| == 4 && b != BEL {
      OctalDigits(signed, b);
      DigitClean(OctalDigit(signed, b, 6));
      DigitClean(OctalDigit(signed, b, 3));
      DigitClean(OctalDigit(signed, b, 0));
    }
  }

  lemma DigitClean(d: Byte)
    requires d < 8
    ensures Clean(48 + d)
  {
  }

  /** Nothing that separates records occurs in an escaped string. */
  lemma {:induction false} EscapedClean(signed: bool, s: seq<Byte>)
    ensures AllClean(Escape(signed, s)) && (s == []) == (Escape(signed, s) == [])
  {
    if s != [] {
      EscapeByteClean(signed, s[0]);
      EscapedClean(signed, s[1..]);
    }
  }
}
