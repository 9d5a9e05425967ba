/**
  The few operations of Rust's `str` that the backend relies on, stated on `seq<char>`:
  `to_lowercase`, the last piece of `split(['/', '\\'])`, `trim_end_matches`, `replace`
  and `trim`.
*/
module Strings {

  /** `to_lowercase` on one character; only the ASCII letters are mapped. */
  function LowerChar(c: char): char
  {
    if 'A' <= c <= 'Z' then (c as int - 'A' as int + 'a' as int) as char else c
  }

  function ToLowercase(s: string): (r: string)
    ensures |r| == |s|
    ensures forall i :: 0 <= i < |s| ==> r[i] == LowerChar(s[i])
  {
    seq(|s|, i requires 0 <= i < |s| => LowerChar(s[i]))
  }

  predicate IsPathSeparator(c: char)
  {
    c == '/' || c == '\\'
  }

  /**
    `s.split(['/', '\\']).last()`: the text after the last separator (all of `s` when it has none).
    The three ensures characterise that piece uniquely.
  */
  function LastSegment(s: string): (r: string)
    ensures |r| <= |s| && r == s[|s| - |r|..]
    ensures forall i :: 0 <= i < |r| ==> !IsPathSeparator(r[i])
    ensures |r| == |s| || IsPathSeparator(s[|s| - |r| - 1])
    decreases |s|
  {
    if s == [] then []
    else if IsPathSeparator(s[|s| - 1]) then []
    else LastSegment(s[..|s| - 1]) + [s[|s| - 1]]
  }

  predicate EndsWith(s: string, suffix: string)
  {
    |suffix| <= |s| && s[|s| - |suffix|..] == suffix
  }

  /** `k` copies of `t` one after another. */
  function Repeat(t: string, k: nat): (r: string)
    ensures |r| == k * |t|
  {
    if k == 0 then [] else Repeat(t, k - 1) + t
  }

  /**
    `s.trim_end_matches(suffix)`: strips the suffix as long as it is there. What is left no
    longer ends with it, and what was removed is a whole number of copies of it.
  */
  function TrimEndMatches(s: string, suffix: string): (r: string)
    requires suffix != []
    ensures !EndsWith(r, suffix)
    ensures exists k: nat :: s == r + Repeat(suffix, k)
    ensures |r| <= |s| && r == s[..|r|]
    decreases |s|
  {
    if EndsWith(s, suffix) then
      var r := TrimEndMatches(s[..|s| - |suffix|], suffix);
      var k: nat :| s[..|s| - |suffix|] == r + Repeat(suffix, k);
      assert s == r + Repeat(suffix, k + 1);
      r
    else
      assert s == s + Repeat(suffix, 0);
      s
  }

  /** Trimming a string that already ends with the suffix gives the same as trimming it without. */
  lemma {:induction false} TrimEndMatchesAppend(s: string, suffix: string)
    requires suffix != []
    ensures TrimEndMatches(s + suffix, suffix) == TrimEndMatches(s, suffix)
  {
    assert (s + suffix)[..|s + suffix| - |suffix|] == s;
  }

  /** `pat` occurs in `s` starting at index `i`. */
  predicate OccursAt(s: string, pat: string, i: nat)
  {
    i + |pat| <= |s| && s[i..i + |pat|] == pat
  }

  predicate Contains(s: string, pat: string)
  {
    exists i: nat | i + |pat| <= |s| :: OccursAt(s, pat, i)
  }

  /**
    `s.replace(pat, rep)`: every non-overlapping occurrence of `pat`, found from left to right,
    is replaced by `rep`.
  */
  function Replace(s: string, pat: string, rep: string): string
    requires pat != []
    decreases |s|
  {
    if |s| < |pat| then s
    else if s[..|pat|] == pat then rep + Replace(s[|pat|..], pat, rep)
    else [s[0]] + Replace(s[1..], pat, rep)
  }

  /** A string in which the pattern does not occur comes back from `replace` unchanged. */
  lemma {:induction false} ReplaceWithoutOccurrence(s: string, pat: string, rep: string)
    requires pat != [] && !Contains(s, pat)
    ensures Replace(s, pat, rep) == s
  {
    if |s| >= |pat| {
      assert !OccursAt(s, pat, 0);
      assert s[..|pat|] != pat;
      forall i: nat | i + |pat| <= |s| - 1 ensures !OccursAt(s[1..], pat, i) {
        assert s[1..][i..i + |pat|] == s[i + 1..i + 1 + |pat|];
        assert !OccursAt(s, pat, i + 1);
      }
      ReplaceWithoutOccurrence(s[1..], pat, rep);
      assert [s[0]] + s[1..] == s;
    }
  }

  /** When the pattern does occur, `replace` puts the replacement in its place. */
  lemma {:induction false} ReplaceAtStart(s: string, pat: string, rep: string)
    requires pat != []
    ensures Replace(pat + s, pat, rep) == rep + Replace(s, pat, rep)
  {
    assert (pat + s)[..|pat|] == pat;
    assert (pat + s)[|pat|..] == s;
  }

  /** With a replacement longer than the pattern, `replace` never shortens, and lengthens whenever the pattern occurs. */
  lemma {:induction false} ReplaceGrows(s: string, pat: string, rep: string)
    requires pat != [] && |rep| > |pat|
    ensures |Replace(s, pat, rep)| >= |s|
    ensures Contains(s, pat) ==> |Replace(s, pat, rep)| > |s|
    decreases |s|
  {
    if |s| >= |pat| {
      if s[..|pat|] == pat {
        ReplaceGrows(s[|pat|..], pat, rep);
      } else {
        ReplaceGrows(s[1..], pat, rep);
        if Contains(s, pat) {
          var i: nat :| i + |pat| <= |s| && OccursAt(s, pat, i);
          assert s[1..][i - 1..i - 1 + |pat|] == s[i..i + |pat|];
          assert OccursAt(s[1..], pat, i - 1);
        }
      }
    }
  }

  /** The characters `trim` removes: the ASCII white space characters. */
  predicate IsWhitespace(c: char)
  {
    c == ' ' || c == '\t' || c == '\n' || c == '\r' || c == '\U{C}'
  }

  /** Every character of `t` is white space. */
  predicate AllWhitespace(t: string)
  {
    forall k :: 0 <= k < |t| ==> IsWhitespace(t[k])
  }

  /** `s.trim_start()`: drops the white space at the front. */
  function TrimStart(s: string): (r: string)
    ensures |r| <= |s| && r == s[|s| - |r|..]
    ensures r == [] || !IsWhitespace(r[0])
    ensures AllWhitespace(s[..|s| - |r|])
  {
    if s != [] && IsWhitespace(s[0]) then
      var r := TrimStart(s[1..]);
      assert s[..|s| - |r|] == [s[0]] + s[1..][..|s| - 1 - |r|];
      r
    else
      s
  }

  /** `s.trim_end()`: drops the white space at the back. */
  function TrimEnd(s: string): (r: string)
    ensures |r| <= |s| && r == s[..|r|]
    ensures r == [] || !IsWhitespace(r[|r| - 1])
    ensures AllWhitespace(s[|r|..])
  {
    if s != [] && IsWhitespace(s[|s| - 1]) then
      var r := TrimEnd(s[..|s| - 1]);
      assert s[|r|..] == s[..|s| - 1][|r|..] + [s[|s| - 1]];
      r
    else
      s
  }

  /** `s.trim()`: neither starts nor ends with white space (see `TrimIsSlice` for what it is a slice of). */
  function Trim(s: string): (r: string)
    ensures |r| <= |s|
    ensures r == [] || (!IsWhitespace(r[0]) && !IsWhitespace(r[|r| - 1]))
  {
    TrimEndKeepsFirst(TrimStart(s));
    TrimEnd(TrimStart(s))
  }

  /** Trimming the end of a text that does not start with white space keeps its first character. */
  lemma TrimEndKeepsFirst(front: string)
    requires front == [] || !IsWhitespace(front[0])
    ensures TrimEnd(front) == [] || (!IsWhitespace(TrimEnd(front)[0]) && !IsWhitespace(TrimEnd(front)[|TrimEnd(front)| - 1]))
  {
    var r := TrimEnd(front);
    if r != [] {
      assert r[0] == front[0];
    }
  }

  /** What `trim` keeps is a slice of the text outside which there is only white space. */
  lemma TrimIsSlice(s: string)
    ensures exists i, j :: 0 <= i <= j <= |s| && Trim(s) == s[i..j] && AllWhitespace(s[..i]) && AllWhitespace(s[j..])
  {
    var front := TrimStart(s);
    var r := TrimEnd(front);
    var i := |s| - |front|;
    assert s[i..] == front;
    assert s[i + |r|..] == front[|r|..];
    assert r == s[i..i + |r|];
    assert Trim(s) == r;
  }
}
