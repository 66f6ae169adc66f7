/**
 match_wildcard of package/webface/kdb.c, against the language its comment documents: `*` stands for
 any sequence of bytes, and a byte after a backslash stands for itself.
 */
module KdbWildcard {
  import opened CStrings

  const STAR: Byte := 42

  /** Whether the pattern starts with a byte taken literally after a backslash.  A backslash at the
      end of the pattern stands for itself. */
  predicate Quoted(p: seq<Byte>) {
    |p| > 1 && p[0] == BACKSLASH
  }

  /** The length and the byte of the literal the pattern starts with. */
  function Width(p: seq<Byte>): nat {
    if Quoted(p) then 2 else 1
  }

  function Literal(p: seq<Byte>): Byte
    requires p != []
  {
    if Quoted(p) then p[1] else p[0]
  }

  /** The documented language. */
  ghost predicate Matches(p: seq<Byte>, s: seq<Byte>)
    decreases |p|
  {
    if p == [] then s == []
    else if p[0] == STAR then exists k :: 0 <= k <= |s| && Matches(p[1..], s[k..])
    else s != [] && s[0] == Literal(p) && Matches(p[Width(p)..], s[1..])
  }

  /** The language of the code: after a star it looks for the first byte of the rest of the pattern. */
  ghost predicate CodeMatches(p: seq<Byte>, s: seq<Byte>)
    decreases |p|
  {
    if p == [] then s == []
    else if p[0] == STAR then |p| == 1 || exists k :: 0 <= k < |s| && s[k] == p[1] && CodeMatches(p[1..], s[k..])
    else s != [] && s[0] == Literal(p) && CodeMatches(p[Width(p)..], s[1..])
  }

  /** match_wildcard */
  method MatchWildcard(pattern: seq<Byte>, text: seq<Byte>) returns (r: bool)
    requires NulFree(pattern) && NulFree(text)
    ensures r == CodeMatches(pattern, text)
    decreases |pattern|, 0
  {
    var p, q := 0, 0;
    while CharAt(pattern, p) != 0
      invariant p <= |pattern| && q <= |text|
      invariant CodeMatches(pattern, text) == CodeMatches(pattern[p..], text[q..])
      decreases |pattern| - p
    {
      if pattern[p] == STAR {
        r := AfterStar(pattern, p + 1, text, q);
        return;
      }
      ghost var rest := pattern[p..];
      if pattern[p] == BACKSLASH && CharAt(pattern, p + 1) != 0 {
        p := p + 1;
      }
      if pattern[p] != CharAt(text, q) {
        return false;
      }
      assert rest[Width(rest)..] == pattern[p + 1..] && text[q..][1..] == text[q + 1..];
      p, q := p + 1, q + 1;
    }
    r := CharAt(text, q) == 0;
  }

  /** The branch for a star, where p is behind the star. */
  method AfterStar(pattern: seq<Byte>, p: nat, text: seq<Byte>, start: nat) returns (r: bool)
    requires NulFree(pattern) && NulFree(text)
    requires 0 < p <= |pattern| && pattern[p - 1] == STAR && start <= |text|
    ensures r == CodeMatches(pattern[p - 1..], text[start..])
    decreases |pattern| - p, 1
  {
    assert pattern[p - 1..][1..] == pattern[p..];
    if CharAt(pattern, p) == 0 {
      return true;
    }
    var q := start;
    while CharAt(text, q) != 0
      invariant start <= q <= |text|
      invariant forall k :: 0 <= k < q - start && text[start..][k] == pattern[p]
                            ==> !CodeMatches(pattern[p..], text[start..][k..])
      decreases |text| - q
    {
      assert text[start..][q - start..] == text[q..];
      if text[q] == pattern[p] {
        r := MatchWildcard(pattern[p..], text[q..]);
        if r {
          return;
        }
      }
      q := q + 1;
    }
    r := false;
  }

  // ---- Against the documented language ----

  /** Whatever the code matches is documented to match. */
  lemma {:induction false} MatchSound(p: seq<Byte>, s: seq<Byte>)
    requires CodeMatches(p, s)
    ensures Matches(p, s)
    decreases |p|
  {
    if p == [] {
    } else if p == [STAR] {
      assert Matches(p[1..], s[|s|..]);
    } else if p[0] == STAR {
      var k :| 0 <= k < |s| && s[k] == p[1] && CodeMatches(p[1..], s[k..]);
      MatchSound(p[1..], s[k..]);
    } else {
      MatchSound(p[Width(p)..], s[1..]);
    }
  }

  /** The star at the start of p is followed by a byte the code can look for: not by another star, and
      not by a backslash that quotes something else than a backslash. */
  predicate StarHandled(p: seq<Byte>) {
    |p| > 1 ==> p[1] != STAR && (p[1] == BACKSLASH && |p| > 2 ==> p[2] == BACKSLASH)
  }

  /** Every unquoted star is handled. */
  predicate Careful(p: seq<Byte>)
    decreases |p|
  {
    if p == [] then true
    else if p[0] == STAR then StarHandled(p) && Careful(p[1..])
    else Careful(p[Width(p)..])
  }

  lemma {:induction false} CarefulComplete(p: seq<Byte>, s: seq<Byte>)
    requires Careful(p) && Matches(p, s)
    ensures CodeMatches(p, s)
    decreases |p|
  {
    if p == [] || p == [STAR] {
    } else if p[0] == STAR {
      var k :| 0 <= k <= |s| && Matches(p[1..], s[k..]);
      CarefulComplete(p[1..], s[k..]);
      assert s[k] == s[k..][0] == Literal(p[1..]) == p[1];
    } else {
      CarefulComplete(p[Width(p)..], s[1..]);
    }
  }

  /** The pattern with its stars taken for nothing. */
  function Shortest(p: seq<Byte>): seq<Byte>
    decreases |p|
  {
    if p == [] then []
    else if p[0] == STAR then Shortest(p[1..])
    else [Literal(p)] + Shortest(p[Width(p)..])
  }

  lemma {:induction false} ShortestMatches(p: seq<Byte>)
    ensures Matches(p, Shortest(p))
    decreases |p|
  {
    if p != [] {
      if p[0] == STAR {
        ShortestMatches(p[1..]);
        assert Shortest(p)[0..] == Shortest(p);
      } else {
        ShortestMatches(p[Width(p)..]);
        assert Shortest(p)[1..] == Shortest(p[Width(p)..]);
      }
    }
  }

  lemma {:induction false} MatchLength(p: seq<Byte>, s: seq<Byte>)
    requires CodeMatches(p, s)
    ensures |s| >= |Shortest(p)|
    decreases |p|
  {
    if p == [] || p == [STAR] {
    } else if p[0] == STAR {
      var k :| 0 <= k < |s| && s[k] == p[1] && CodeMatches(p[1..], s[k..]);
      MatchLength(p[1..], s[k..]);
    } else {
      MatchLength(p[Width(p)..], s[1..]);
    }
  }

  /** The star a star was looking for is always skipped. */
  lemma {:induction false} StarSkipsStar(p: seq<Byte>, s: seq<Byte>)
    requires p != [] && p[0] == STAR && s != [] && s[0] == STAR && CodeMatches(p, s)
    ensures |s| > |Shortest(p)|
    decreases |p|
  {
    if |p| > 1 {
      var k :| 0 <= k < |s| && s[k] == p[1] && CodeMatches(p[1..], s[k..]);
      if p[1] == STAR {
        StarSkipsStar(p[1..], s[k..]);
      } else {
        assert k > 0;
        MatchLength(p[1..], s[k..]);
      }
    }
  }

  /** With a star that is not handled, the code only matches strings longer than the shortest one. */
  lemma {:induction false} CarelessLonger(p: seq<Byte>, s: seq<Byte>)
    requires !Careful(p) && CodeMatches(p, s)
    ensures |s| > |Shortest(p)|
    decreases |p|
  {
    if p[0] != STAR {
      CarelessLonger(p[Width(p)..], s[1..]);
    } else {
      var k :| 0 <= k < |s| && s[k] == p[1] && CodeMatches(p[1..], s[k..]);
      if p[1] == STAR {
        StarSkipsStar(p[1..], s[k..]);
      } else if StarHandled(p) {
        CarelessLonger(p[1..], s[k..]);
      } else {
        // s[k] would have to be both the backslash and the byte it quotes
        assert false;
      }
    }
  }

  /** The code implements the documented language for a pattern if and only if every star is handled. */
  lemma WildcardExactIff(p: seq<Byte>)
    ensures Careful(p) <==> forall s :: CodeMatches(p, s) == Matches(p, s)
  {
    if Careful(p) {
      forall s ensures CodeMatches(p, s) == Matches(p, s) {
        if CodeMatches(p, s) {
          MatchSound(p, s);
        }
        if Matches(p, s) {
          CarefulComplete(p, s);
        }
      }
    } else {
      ShortestMatches(p);
      if CodeMatches(p, Shortest(p)) {
        CarelessLonger(p, Shortest(p));
      }
      assert CodeMatches(p, Shortest(p)) != Matches(p, Shortest(p));
    }
  }

  /** A pattern without star, as is_wildcarded tells, matches exactly one string. */
  lemma {:induction false} NoStarMatchesOne(p: seq<Byte>, s: seq<Byte>)
    requires Without(p, STAR)
    ensures CodeMatches(p, s) <==> s == Shortest(p)
    decreases |p|
  {
    if p != [] {
      NoStarMatchesOne(p[Width(p)..], if s == [] then [] else s[1..]);
      if s != [] {
        assert s == [s[0]] + s[1..];
      }
    }
  }

  /** A name without star and backslash, used as a pattern, matches only itself. */
  lemma {:induction false} PlainShortest(p: seq<Byte>)
    requires Without(p, STAR) && Without(p, BACKSLASH)
    ensures Shortest(p) == p && Careful(p)
    decreases |p|
  {
    if p != [] {
      PlainShortest(p[1..]);
      assert p == [p[0]] + p[1..];
    }
  }
}
