/**
  The MAC-address rewrite used by `Hosts::find`: a global `preg_replace` of
  the pattern `(?:([0-9a-fA-F]{2})[\:\-]?(?!$))` by `$1` followed by a joiner
  (`-`, `:` or nothing). Strings are assumed to hold no newline, so `$` only
  matches at the very end.
*/
module MacAddress {

  /** The character class `[0-9a-fA-F]`. */
  predicate IsHex(c: char) {
    ('0' <= c <= '9') || ('a' <= c <= 'f') || ('A' <= c <= 'F')
  }

  /** The character class `[\:\-]`. */
  predicate IsSep(c: char) {
    c == ':' || c == '-'
  }

  /** What follows `$1` in the three replacements `$1-`, `$1:`, `$1`, in the order find tries them. */
  const Joiners: seq<string> := ["-", ":", ""]

  predicate IsJoiner(j: string) {
    j in Joiners
  }

  /**
    The regex replacement as a left-to-right transducer. At the current
    position a match needs two hex characters; it then takes one separator
    if one follows and is not the last character, and the lookahead rejects
    a pair that would end the string. A match is replaced by the pair and
    the joiner; where no match starts, one character is copied.
  */
  function Rewrite(s: string, joiner: string): (r: string)
    ensures |s| == 0 <==> |r| == 0
    ensures |s| > 0 ==> r[0] == s[0]
    decreases |s|
  {
    if |s| >= 3 && IsHex(s[0]) && IsHex(s[1]) then
      if |s| >= 4 && IsSep(s[2]) then s[..2] + joiner + Rewrite(s[3..], joiner)
      else s[..2] + joiner + Rewrite(s[2..], joiner)
    else if s == [] then []
    else [s[0]] + Rewrite(s[1..], joiner)
  }

  /** The characters of `s` that are not separators, in order. */
  function RemoveSeps(s: string): (r: string)
    ensures |r| <= |s|
    ensures forall i :: 0 <= i < |r| ==> !IsSep(r[i])
  {
    if s == [] then []
    else (if IsSep(s[0]) then [] else [s[0]]) + RemoveSeps(s[1..])
  }

  /** The pairs of `h` joined by `joiner`, with no joiner after the last pair. */
  function Join(h: string, joiner: string): (r: string)
    ensures |r| >= |h|
    ensures |h| > 0 ==> r[0] == h[0]
    ensures RemoveSeps(joiner) == [] ==> RemoveSeps(r) == RemoveSeps(h)
    decreases |h|
  {
    if |h| <= 2 then h
    else
      var tail := Join(h[2..], joiner);
      RemoveSepsAppend(h[..2] + joiner, tail);
      RemoveSepsAppend(h[..2], joiner);
      RemoveSepsAppend(h[..2], h[2..]);
      assert h == h[..2] + h[2..];
      h[..2] + joiner + tail
  }

  /** A string of hex digits made of whole pairs; a MAC address has six. */
  predicate IsHexPairs(h: string) {
    |h| >= 2 && |h| % 2 == 0 && forall i :: 0 <= i < |h| ==> IsHex(h[i])
  }

  predicate NoAdjacentSeps(s: string) {
    forall i :: 0 <= i < |s| - 1 ==> !(IsSep(s[i]) && IsSep(s[i + 1]))
  }

  lemma {:induction false} RemoveSepsAppend(a: string, b: string)
    ensures RemoveSeps(a + b) == RemoveSeps(a) + RemoveSeps(b)
    decreases |a|
  {
    if a == [] {
      assert a + b == b;
    } else {
      assert (a + b)[1..] == a[1..] + b;
      RemoveSepsAppend(a[1..], b);
    }
  }

  lemma JoinerIsSeparators(j: string)
    requires IsJoiner(j)
    ensures RemoveSeps(j) == []
  {
    if j != [] {
      assert j[1..] == [];
    }
  }

  /**
    The rewrite only inserts and deletes separators: the non-separator
    characters of the result are those of the input, in the same order.
  */
  lemma {:induction false} RewriteKeepsNonSeparators(s: string, j: string)
    requires IsJoiner(j)
    ensures RemoveSeps(Rewrite(s, j)) == RemoveSeps(s)
    decreases |s|
  {
    JoinerIsSeparators(j);
    if |s| >= 3 && IsHex(s[0]) && IsHex(s[1]) {
      var k := if |s| >= 4 && IsSep(s[2]) then 3 else 2;
      RewriteKeepsNonSeparators(s[k..], j);
      RemoveSepsAppend(s[..2] + j, Rewrite(s[k..], j));
      RemoveSepsAppend(s[..2], j);
      RemoveSepsAppend(s[..k], s[k..]);
      assert s == s[..k] + s[k..];
      RemoveSepsAppend(s[..2], s[2..k]);
      assert s[..k] == s[..2] + s[2..k];
      assert RemoveSeps(s[..2]) == s[..2] by {
        assert s[..2][1..][1..] == [];
      }
      if k == 3 {
        assert s[2..k] == [s[2]];
        assert RemoveSeps(s[2..k]) == [];
      }
    } else if s != [] {
      RewriteKeepsNonSeparators(s[1..], j);
    }
  }

  /** Characters that never stand in a pair of adjacent hex digits pass through unchanged. */
  lemma {:induction false} RewriteWithoutPairs(s: string, j: string)
    requires forall i :: 0 <= i < |s| - 1 ==> !(IsHex(s[i]) && IsHex(s[i + 1]))
    ensures Rewrite(s, j) == s
    decreases |s|
  {
    if s != [] {
      RewriteWithoutPairs(s[1..], j);
    }
  }

  /**
    Rewriting a rewritten string changes nothing, for the joiners `-` and
    `:` on every input; for the empty joiner only when the input has no two
    adjacent separators (see NoJoinerNotIdempotent).
  */
  lemma {:induction false} RewriteIdempotent(s: string, j: string)
    requires IsJoiner(j)
    requires j != "" || NoAdjacentSeps(s)
    ensures Rewrite(Rewrite(s, j), j) == Rewrite(s, j)
    decreases |s|
  {
    var t := Rewrite(s, j);
    if |s| >= 3 && IsHex(s[0]) && IsHex(s[1]) {
      var k := if |s| >= 4 && IsSep(s[2]) then 3 else 2;
      var rest := Rewrite(s[k..], j);
      assert t == s[..2] + j + rest;
      RewriteIdempotent(s[k..], j);
      if j != "" {
        assert |t| >= 4 && IsSep(t[2]);
        assert t[3..] == rest;
      } else if k == 3 {
        assert t[2] == s[3];
        assert !IsSep(s[3]) by { assert !(IsSep(s[2]) && IsSep(s[3])); }
        assert t[2..] == rest;
      } else if |s| >= 4 {
        assert t[2] == s[2] && !IsSep(s[2]);
        assert t[2..] == rest;
      } else {
        assert |t| == 3 && t == s;
      }
    } else if s != [] {
      RewriteIdempotent(s[1..], j);
      assert t == [s[0]] + Rewrite(s[1..], j);
      assert |s| >= 2 ==> t[1] == s[1];
      assert t[1..] == Rewrite(s[1..], j);
    }
  }

  /** With the empty joiner, a separator left after a consumed one is consumed by a second pass. */
  lemma NoJoinerNotIdempotent()
    ensures Rewrite("ab::c", "") == "ab:c"
    ensures Rewrite("ab:c", "") == "abc"
  {
  }

  /** One step of the transducer where a pair is matched, with or without a separator after it. */
  lemma RewritePairStep(e: string, j: string)
    requires |e| >= 3 && IsHex(e[0]) && IsHex(e[1])
    ensures Rewrite(e, j) == e[..2] + j + Rewrite(e[if |e| >= 4 && IsSep(e[2]) then 3 else 2..], j)
  {
  }

  lemma HexPairsTail(h: string)
    requires IsHexPairs(h) && |h| > 2
    ensures IsHexPairs(h[2..])
  {
    forall i | 0 <= i < |h[2..]| ensures IsHex(h[2..][i]) {
      assert h[2..][i] == h[i + 2];
    }
  }

  /** The first pair of a canonical encoding is rewritten with its joiner replaced. */
  lemma CanonicalStep(h: string, stored: string, j: string)
    requires IsHexPairs(h) && |h| > 2 && IsJoiner(stored)
    ensures Rewrite(Join(h, stored), j) == h[..2] + j + Rewrite(Join(h[2..], stored), j)
  {
    var tail := Join(h[2..], stored);
    var e := h[..2] + stored + tail;
    assert Join(h, stored) == e;
    assert |tail| >= 2 && tail[0] == h[2];
    assert IsSep(e[2]) <==> stored != "";
    assert e[if stored != "" then 3 else 2..] == tail;
    RewritePairStep(e, j);
  }

  /**
    A canonical encoding of whole hex pairs, joined by any of the three
    joiners, is rewritten into the same pairs joined by any other: the six
    pairs of a MAC address with no trailing joiner.
  */
  lemma {:induction false} RewriteCanonical(h: string, stored: string, j: string)
    requires IsHexPairs(h)
    requires IsJoiner(stored) && IsJoiner(j)
    ensures Rewrite(Join(h, stored), j) == Join(h, j)
    decreases |h|
  {
    if |h| == 2 {
      RewriteWithoutPairs(h[1..], j);
    } else {
      HexPairsTail(h);
      RewriteCanonical(h[2..], stored, j);
      CanonicalStep(h, stored, j);
    }
  }

  /** A character that is neither hex nor a separator is copied when it starts the input. */
  lemma RewriteCopiesNonHex(c: char, b: string, j: string)
    requires !IsHex(c)
    ensures Rewrite([c] + b, j) == [c] + Rewrite(b, j)
  {
    assert ([c] + b)[1..] == b;
  }

  /** One step of the transducer where no match starts: the first character is copied. */
  lemma RewriteCopyStep(s: string, j: string)
    requires s != [] && !(|s| >= 3 && IsHex(s[0]) && IsHex(s[1]))
    ensures Rewrite(s, j) == [s[0]] + Rewrite(s[1..], j)
  {
  }

  /**
    The rewrite is local: a character that is neither hex nor a separator
    can belong to no match, so the text after it is rewritten on its own and
    nothing on either side of it is lost or merged.
  */
  lemma RewriteSplitsAt(a: string, c: char, b: string, j: string)
    requires !IsHex(c) && !IsSep(c)
    ensures Rewrite(a + [c] + b, j) == Rewrite(a + [c], j) + Rewrite(b, j)
  {
    var s := a + [c] + b;
    assert s[|a|] == c && s[..|a| + 1] == a + [c] && s[|a| + 1..] == b;
    SplitAtIndex(s, |a|, j);
  }

  /** RewriteSplitsAt with the character given by its position `i`. */
  lemma {:induction false} SplitAtIndex(s: string, i: nat, j: string)
    requires i < |s| && !IsHex(s[i]) && !IsSep(s[i])
    ensures Rewrite(s, j) == Rewrite(s[..i + 1], j) + Rewrite(s[i + 1..], j)
    decreases i, 1
  {
    var p := s[..i + 1];
    if i == 0 {
      RewriteCopyStep(s, j);
      RewriteCopyStep(p, j);
      assert p[1..] == [];
    } else if |s| >= 3 && IsHex(s[0]) && IsHex(s[1]) {
      SplitAfterPair(s, i, j);
    } else {
      SplitAfterCopy(s, i, j);
    }
  }

  /** The case of SplitAtIndex where a pair is matched at the start. */
  lemma {:induction false} SplitAfterPair(s: string, i: nat, j: string)
    requires 0 < i < |s| && !IsHex(s[i]) && !IsSep(s[i])
    requires |s| >= 3 && IsHex(s[0]) && IsHex(s[1])
    ensures Rewrite(s, j) == Rewrite(s[..i + 1], j) + Rewrite(s[i + 1..], j)
    decreases i, 0
  {
    var p := s[..i + 1];
    assert i >= 2;
    RewritePairStep(s, j);
    RewritePairStep(p, j);
    assert p[..2] == s[..2] && p[2] == s[2];
    if i == 2 {
      assert !IsSep(s[2]) && p[2..] == [s[2]];
      RewriteCopyStep(s[2..], j);
      assert s[2..][1..] == s[3..];
      RewriteCopyStep(p[2..], j);
      assert p[2..][1..] == [];
    } else {
      var k := if IsSep(s[2]) then 3 else 2;
      assert |p| >= 4;
      assert p[k..] == s[k..][..i - k + 1];
      assert s[k..][i - k + 1..] == s[i + 1..];
      SplitAtIndex(s[k..], i - k, j);
    }
  }

  /** The case of SplitAtIndex where no match starts at the first character. */
  lemma {:induction false} SplitAfterCopy(s: string, i: nat, j: string)
    requires 0 < i < |s| && !IsHex(s[i]) && !IsSep(s[i])
    requires !(|s| >= 3 && IsHex(s[0]) && IsHex(s[1]))
    ensures Rewrite(s, j) == Rewrite(s[..i + 1], j) + Rewrite(s[i + 1..], j)
    decreases i, 0
  {
    var p := s[..i + 1];
    RewriteCopyStep(s, j);
    assert p[0] == s[0] && p[1] == s[1];
    RewriteCopyStep(p, j);
    assert p[1..] == s[1..][..i];
    assert s[1..][i..] == s[i + 1..];
    SplitAtIndex(s[1..], i - 1, j);
  }
}
