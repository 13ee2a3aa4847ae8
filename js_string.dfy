/**
 * The JavaScript string built-ins the pages and routes rely on:
 * `trim`, `replaceAll` with a string pattern, and `toLowerCase`.
 * Strings are sequences of code points.
 */
module JsString {

  /** ECMAScript's WhiteSpace and LineTerminator code points: exactly what `trim` strips. */
  predicate IsWhitespace(c: char) {
    || c == '\t' || c == '\n' || c == '\U{000B}' || c == '\U{000C}' || c == '\r' || c == ' '
    || c == '\U{00A0}' || c == '\U{1680}' || ('\U{2000}' <= c <= '\U{200A}')
    || c == '\U{2028}' || c == '\U{2029}' || c == '\U{202F}' || c == '\U{205F}'
    || c == '\U{3000}' || c == '\U{FEFF}'
  }

  predicate AllWhitespace(s: string) {
    forall i :: 0 <= i < |s| ==> IsWhitespace(s[i])
  }

  /** Drops the leading whitespace: what is dropped is all whitespace, what is kept does not start with any. */
  function TrimStart(s: string): (r: string)
    ensures |r| <= |s| && r == s[|s| - |r|..]
    ensures AllWhitespace(s[..|s| - |r|])
    ensures r != [] ==> !IsWhitespace(r[0])
  {
    if s != [] && IsWhitespace(s[0]) then
      var r := TrimStart(s[1..]);
      var k := |s| - |r|;
      assert AllWhitespace(s[..k]) by {
        forall i | 1 <= i < k ensures IsWhitespace(s[i]) {
          assert s[1..][..k - 1][i - 1] == s[i];
        }
      }
      r
    else
      s
  }

  /** Drops the trailing whitespace: what is dropped is all whitespace, what is kept does not end with any. */
  function TrimEnd(s: string): (r: string)
    ensures |r| <= |s| && r == s[..|r|]
    ensures AllWhitespace(s[|r|..])
    ensures r != [] ==> !IsWhitespace(r[|r| - 1])
  {
    if s != [] && IsWhitespace(s[|s| - 1]) then
      var init := s[..|s| - 1];
      var r := TrimEnd(init);
      assert AllWhitespace(s[|r|..]) by {
        forall i | |r| <= i < |s| - 1 ensures IsWhitespace(s[i]) {
          assert init[|r|..][i - |r|] == s[i];
        }
      }
      r
    else
      s
  }

  /** `r` is the piece of `s` at `k`, and everything of `s` before it and after it is whitespace. */
  predicate TrimsTo(s: string, k: nat, r: string) {
    && k + |r| <= |s|
    && r == s[k..k + |r|]
    && (forall i :: 0 <= i < k ==> IsWhitespace(s[i]))
    && (forall i :: k + |r| <= i < |s| ==> IsWhitespace(s[i]))
  }

  /**
   * `s.trim()`: the piece of `s` left after dropping whitespace at both ends, so it has no
   * whitespace at either end, and it is empty exactly when `s` is all whitespace.
   */
  function Trim(s: string): (r: string)
    ensures |r| <= |s|
    ensures exists k: nat :: TrimsTo(s, k, r)
    ensures r != [] ==> !IsWhitespace(r[0]) && !IsWhitespace(r[|r| - 1])
    ensures r == [] <==> AllWhitespace(s)
  {
    var t := TrimStart(s);
    var r := TrimEnd(t);
    PrefixOfSuffix(s, t, r);
    r
  }

  /**
   * Dropping whitespace from the front of `s` to get `t`, then from the back of `t` to get `r`,
   * leaves the piece `r` of `s`, which is empty exactly when `s` is all whitespace.
   */
  lemma PrefixOfSuffix(s: string, t: string, r: string)
    requires |t| <= |s| && t == s[|s| - |t|..] && AllWhitespace(s[..|s| - |t|])
    requires t != [] ==> !IsWhitespace(t[0])
    requires |r| <= |t| && r == t[..|r|] && AllWhitespace(t[|r|..])
    requires r != [] ==> !IsWhitespace(r[|r| - 1])
    ensures TrimsTo(s, |s| - |t|, r)
    ensures r != [] ==> !IsWhitespace(r[0]) && !IsWhitespace(r[|r| - 1])
    ensures r == [] <==> AllWhitespace(s)
  {
    var k := |s| - |t|;
    forall i | 0 <= i < k ensures IsWhitespace(s[i]) {
      assert s[..k][i] == s[i];
    }
    forall i | k + |r| <= i < |s| ensures IsWhitespace(s[i]) {
      assert t[|r|..][i - k - |r|] == s[i];
    }
    if r != [] {
      assert r[0] == t[0];
    }
    if t != [] {
      assert t[0] == s[k];
      assert r != [];
    }
  }

  /**
   * A string is blank when `if (s.trim())` does not fire: by `Trim`'s contract, when `s.trim()`
   * is `""`, which is when every character is whitespace.
   */
  predicate IsBlank(s: string) {
    AllWhitespace(s)
  }

  /** Trimming a trimmed string changes nothing. */
  lemma TrimIdempotent(s: string)
    ensures Trim(Trim(s)) == Trim(s)
    ensures IsBlank(s) <==> Trim(s) == []
  {
    var t := Trim(s);
    if t != [] {
      assert TrimStart(t) == t;
      assert TrimEnd(t) == t;
    }
  }

  /** `pat` occurs in `s` starting at index `i`. */
  predicate MatchAt(s: string, pat: string, i: nat) {
    i + |pat| <= |s| && s[i..i + |pat|] == pat
  }

  predicate Contains(s: string, pat: string) {
    exists i: nat | i <= |s| :: MatchAt(s, pat, i)
  }

  /** A string contains any of its suffixes, and containment survives adding text on either side. */
  lemma ContainsSuffix(a: string, b: string)
    ensures Contains(a + b, b)
  {
    assert MatchAt(a + b, b, |a|) by { assert (a + b)[|a|..|a| + |b|] == b; }
  }

  lemma ContainsAppend(s: string, t: string, b: string)
    requires Contains(s, b)
    ensures Contains(s + t, b)
  {
    var i: nat :| i <= |s| && MatchAt(s, b, i);
    assert MatchAt(s + t, b, i) by { assert (s + t)[i..i + |b|] == s[i..i + |b|]; }
  }

  lemma ContainsPrepend(s: string, t: string, b: string)
    requires Contains(t, b)
    ensures Contains(s + t, b)
  {
    var i: nat :| i <= |t| && MatchAt(t, b, i);
    assert MatchAt(s + t, b, |s| + i) by { assert (s + t)[|s| + i..|s| + i + |b|] == t[i..i + |b|]; }
  }

  /**
   * `s.replaceAll(pat, rep)` for a non-empty string pattern: a left-to-right scan that
   * replaces each match and resumes after it, so matches never overlap.
   * When the replacement is no longer than the pattern, the result is no longer than `s`.
   */
  function ReplaceAll(s: string, pat: string, rep: string): (r: string)
    requires pat != []
    ensures |rep| <= |pat| ==> |r| <= |s|
    decreases |s|
  {
    if |s| < |pat| then s
    else if s[..|pat|] == pat then rep + ReplaceAll(s[|pat|..], pat, rep)
    else [s[0]] + ReplaceAll(s[1..], pat, rep)
  }

  /** Where the pattern does not occur, `replaceAll` returns its input. */
  lemma {:induction false} ReplaceAllNoMatch(s: string, pat: string, rep: string)
    requires pat != []
    requires !Contains(s, pat)
    ensures ReplaceAll(s, pat, rep) == s
    decreases |s|
  {
    if |s| >= |pat| {
      assert !MatchAt(s, pat, 0);
      assert s[0..|pat|] == s[..|pat|];
      forall i: nat | i <= |s[1..]| ensures !MatchAt(s[1..], pat, i) {
        assert !MatchAt(s, pat, i + 1);
        if i + |pat| <= |s[1..]| {
          assert s[1..][i..i + |pat|] == s[i + 1..i + 1 + |pat|];
        }
      }
      ReplaceAllNoMatch(s[1..], pat, rep);
    }
  }

  /** A character found neither in the input nor in the replacement is not in the output. */
  lemma {:induction false} ReplaceAllKeepsAbsent(s: string, pat: string, rep: string, c: char)
    requires pat != []
    requires c !in s && c !in rep
    ensures c !in ReplaceAll(s, pat, rep)
    decreases |s|
  {
    if |s| >= |pat| {
      if s[..|pat|] == pat {
        ReplaceAllKeepsAbsent(s[|pat|..], pat, rep, c);
      } else {
        ReplaceAllKeepsAbsent(s[1..], pat, rep, c);
      }
    }
  }

  /** Replacing a single character by nothing removes every occurrence of it. */
  lemma {:induction false} ReplaceAllDeletes(s: string, c: char)
    ensures c !in ReplaceAll(s, [c], [])
    decreases |s|
  {
    if |s| >= 1 {
      if s[..1] == [c] {
        ReplaceAllDeletes(s[1..], c);
      } else {
        assert s[0] != c by { assert s[..1] == [s[0]]; }
        ReplaceAllDeletes(s[1..], c);
      }
    }
  }

  /** No space in `s` is directly followed by `e`. */
  predicate NoSpaceBefore(s: string, e: char) {
    forall i :: 0 <= i < |s| - 1 ==> !(s[i] == ' ' && s[i + 1] == e)
  }

  /** `NoSpaceBefore` is the absence of the two-character substring `' ' e`. */
  lemma NoSpaceBeforeIsNotContains(s: string, e: char)
    ensures NoSpaceBefore(s, e) <==> !Contains(s, [' ', e])
  {
    if NoSpaceBefore(s, e) {
      forall i: nat | i <= |s| ensures !MatchAt(s, [' ', e], i) {
        if i + 2 <= |s| {
          assert s[i..i + 2] == [s[i], s[i + 1]];
        }
      }
    } else {
      var i :| 0 <= i < |s| - 1 && s[i] == ' ' && s[i + 1] == e;
      assert MatchAt(s, [' ', e], i);
    }
  }

  /** The first character a single-character replacement produces. */
  lemma ReplaceAllHead(t: string, pat: string, d: char)
    requires pat != [] && t != []
    ensures ReplaceAll(t, pat, [d]) != []
    ensures ReplaceAll(t, pat, [d])[0] == if |t| >= |pat| && t[..|pat|] == pat then d else t[0]
  {
  }

  /**
   * Replacing `' ' c` by a single character `d` (neither a space nor `e`) leaves no space
   * followed by `e`, provided `e` is `c` itself or the input already had none.
   */
  lemma {:induction false} ReplacePairNoSpaceBefore(s: string, c: char, d: char, e: char)
    requires d != ' ' && d != e
    requires e == c || NoSpaceBefore(s, e)
    ensures NoSpaceBefore(ReplaceAll(s, [' ', c], [d]), e)
    decreases |s|
  {
    var pat := [' ', c];
    if |s| >= 2 {
      var r := ReplaceAll(s, pat, [d]);
      if s[..2] == pat {
        var t := s[2..];
        assert e == c || NoSpaceBefore(t, e) by {
          if e != c {
            forall i | 0 <= i < |t| - 1 ensures !(t[i] == ' ' && t[i + 1] == e) {
              assert t[i] == s[i + 2] && t[i + 1] == s[i + 3];
            }
          }
        }
        ReplacePairNoSpaceBefore(t, c, d, e);
        assert r == [d] + ReplaceAll(t, pat, [d]);
      } else {
        var t := s[1..];
        assert e == c || NoSpaceBefore(t, e) by {
          if e != c {
            forall i | 0 <= i < |t| - 1 ensures !(t[i] == ' ' && t[i + 1] == e) {
              assert t[i] == s[i + 1] && t[i + 1] == s[i + 2];
            }
          }
        }
        ReplacePairNoSpaceBefore(t, c, d, e);
        var rt := ReplaceAll(t, pat, [d]);
        assert r == [s[0]] + rt;
        ReplaceAllHead(t, pat, d);
        assert s[0] == ' ' ==> rt[0] != e by {
          if s[0] == ' ' {
            assert s[..2] == [s[0], s[1]];
            assert s[1] != e;
          }
        }
      }
    }
  }

  /** ASCII case mapping of one character. */
  function LowerChar(c: char): char {
    if 'A' <= c <= 'Z' then (c as int + 32) as char else c
  }

  /** `s.toLowerCase()` on the ASCII letters: same length, no upper-case ASCII letter left, every other character kept. */
  function ToLowerCase(s: string): (r: string)
    ensures |r| == |s|
    ensures forall i :: 0 <= i < |s| ==> !('A' <= r[i] <= 'Z')
    ensures forall i :: 0 <= i < |s| && !('A' <= s[i] <= 'Z') ==> r[i] == s[i]
    ensures forall i :: 0 <= i < |s| && 'A' <= s[i] <= 'Z' ==> r[i] as int == s[i] as int + 32
  {
    if s == [] then [] else [LowerChar(s[0])] + ToLowerCase(s[1..])
  }
}
