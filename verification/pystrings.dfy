/** The parts of Python's `str` behaviour both pipelines rely on: whitespace,
    `strip`, `startswith`/`endswith`/`in`/`count`, `lower`, and the
    case-insensitive matching of the `re` module. */
module PyStrings {

  /** `str.isspace()` of one character: the set `strip()` and `split()` use. */
  predicate IsSpace(c: char) {
    || c == '\t' || c == '\n' || c == '\U{B}' || c == '\U{C}' || c == '\r'
    || ('\U{1C}' <= c <= '\U{1F}') || c == ' ' || c == '\U{85}' || c == '\U{A0}'
    || c == '\U{1680}' || ('\U{2000}' <= c <= '\U{200A}')
    || c == '\U{2028}' || c == '\U{2029}' || c == '\U{202F}' || c == '\U{205F}'
    || c == '\U{3000}'
  }

  /** `not s.strip()`: the string is empty or whitespace only. */
  predicate IsBlank(s: string) {
    forall k :: 0 <= k < |s| ==> IsSpace(s[k])
  }

  /** Index of the first non-whitespace character of `s` (`|s|` if none). */
  function LeadingSpace(s: string): (i: nat)
    ensures i <= |s|
    ensures forall k :: 0 <= k < i ==> IsSpace(s[k])
    ensures i < |s| ==> !IsSpace(s[i])
    decreases |s|
  {
    if |s| > 0 && IsSpace(s[0]) then 1 + LeadingSpace(s[1..]) else 0
  }

  /** Index just past the last non-whitespace character of `s` at or after
      `i` (`i` if none). */
  function TrailingStart(s: string, i: nat): (j: nat)
    requires i <= |s|
    ensures i <= j <= |s|
    ensures forall k :: j <= k < |s| ==> IsSpace(s[k])
    ensures j > i ==> !IsSpace(s[j - 1])
    decreases |s|
  {
    if |s| > i && IsSpace(s[|s| - 1]) then TrailingStart(s[..|s| - 1], i) else |s|
  }

  /** `t` occurs in `s` starting at index `i`. */
  predicate InfixAt(s: string, t: string, i: nat) {
    i + |t| <= |s| && s[i..i + |t|] == t
  }

  /** `str.strip()` with no argument: the infix of `s` left after removing
      leading and trailing whitespace. */
  function Strip(s: string): (r: string)
    ensures |r| <= |s|
    ensures |r| == 0 <==> IsBlank(s)
    ensures |r| > 0 ==> !IsSpace(r[0]) && !IsSpace(r[|r| - 1])
  {
    var i := LeadingSpace(s);
    s[i..TrailingStart(s, i)]
  }

  /** What `strip()` keeps is the infix of `s` that starts after the leading
      whitespace, and only whitespace surrounds it. */
  lemma StripIsInfix(s: string)
    ensures InfixAt(s, Strip(s), LeadingSpace(s))
    ensures IsBlank(s[..LeadingSpace(s)])
    ensures IsBlank(s[LeadingSpace(s) + |Strip(s)|..])
  {
  }

  /** `strip()` is determined by its result's shape: whatever the split of
      `s` into whitespace, a middle part with non-space ends (or empty), and
      whitespace, the middle part is `s.strip()`. */
  lemma StripOfPadded(a: string, t: string, b: string)
    requires IsBlank(a) && IsBlank(b)
    requires |t| > 0 ==> !IsSpace(t[0]) && !IsSpace(t[|t| - 1])
    ensures Strip(a + t + b) == t
  {
    var s := a + t + b;
    var i := LeadingSpace(s);
    var j := TrailingStart(s, i);
    if |t| == 0 {
      assert IsBlank(s) by {
        forall k | 0 <= k < |s|
          ensures IsSpace(s[k])
        {
          if k < |a| { assert s[k] == a[k]; } else { assert s[k] == b[k - |a|]; }
        }
      }
    } else {
      assert s[|a|] == t[0];
      assert s[|a| + |t| - 1] == t[|t| - 1];
      assert i == |a|;
      assert j == |a| + |t|;
      assert s[i..j] == t;
    }
  }

  /** `s.startswith(p)` */
  predicate StartsWith(s: string, p: string) {
    |p| <= |s| && s[..|p|] == p
  }

  /** `s.endswith(p)` */
  predicate EndsWith(s: string, p: string) {
    |p| <= |s| && s[|s| - |p|..] == p
  }

  /** `p in s` for strings: a case-sensitive substring test. */
  predicate Contains(s: string, p: string) {
    exists i: nat | i <= |s| :: InfixAt(s, p, i)
  }

  lemma StartsWithContains(s: string, p: string)
    requires StartsWith(s, p)
    ensures Contains(s, p)
  {
    assert InfixAt(s, p, 0);
  }

  /** A substring of an infix of `s` is a substring of `s`. */
  lemma ContainsInInfix(s: string, i: nat, t: string, p: string)
    requires InfixAt(s, t, i)
    requires Contains(t, p)
    ensures Contains(s, p)
  {
    var j: nat :| j <= |t| && InfixAt(t, p, j);
    forall k | 0 <= k < |p|
      ensures s[i + j + k] == p[k]
    {
      assert p[k] == t[j + k] == s[i + j + k];
    }
    assert s[i + j..i + j + |p|] == p;
    assert InfixAt(s, p, i + j);
  }

  /** `s.count(c)` for a one-character `c`. */
  function Count(s: string, c: char): (n: nat)
    ensures n == multiset(s)[c]
    decreases |s|
  {
    if |s| == 0 then 0
    else
      assert s == [s[0]] + s[1..];
      (if s[0] == c then 1 else 0) + Count(s[1..], c)
  }

  /** `str.lower()` of one character, exactly as Python computes it for ASCII,
      for the Cyrillic capitals U+0400-U+042F and U+0490, and for the five
      other characters whose lowercase form is a Latin letter or one of the
      stylized letters the normalizer knows. Every other character is kept. */
  function LowerChar(c: char): (r: string)
    ensures |r| >= 1
  {
    if 'A' <= c <= 'Z' then [(c as int + 32) as char]
    else if '\U{400}' <= c <= '\U{40F}' then [(c as int + 0x50) as char]
    else if '\U{410}' <= c <= '\U{42F}' then [(c as int + 0x20) as char]
    else if c == '\U{490}' then ['\U{491}']
    else if c == '\U{130}' then ['i', '\U{307}']
    else if c == '\U{1A6}' then ['\U{280}']
    else if c == '\U{1EA}' then ['\U{1EB}']
    else if c == '\U{212A}' then ['k']
    else if c == '\U{A7AE}' then ['\U{26A}']
    else [c]
  }

  /** `s.lower()` (see LowerChar for the characters covered). */
  function Lower(s: string): (r: string)
    ensures |r| >= |s|
    decreases |s|
  {
    if |s| == 0 then [] else LowerChar(s[0]) + Lower(s[1..])
  }

  /** Characters `lower()` leaves alone. */
  predicate IsLowerStable(c: char) {
    LowerChar(c) == [c]
  }

  lemma {:induction false} LowerOfStable(s: string)
    requires forall k :: 0 <= k < |s| ==> IsLowerStable(s[k])
    ensures Lower(s) == s
    decreases |s|
  {
    if |s| > 0 {
      LowerOfStable(s[1..]);
    }
  }

  lemma {:induction false} LowerAppend(a: string, b: string)
    ensures Lower(a + b) == Lower(a) + Lower(b)
    decreases |a|
  {
    if |a| == 0 {
      assert a + b == b;
    } else {
      assert (a + b)[1..] == a[1..] + b;
      LowerAppend(a[1..], b);
    }
  }

  /** Every character `lower()` produces is left alone by `lower()`. */
  lemma LowerCharIsStable(c: char)
    ensures forall k :: 0 <= k < |LowerChar(c)| ==> IsLowerStable(LowerChar(c)[k])
  {
  }

  /** `lower()` is idempotent. */
  lemma {:induction false} LowerIdempotent(s: string)
    ensures Lower(Lower(s)) == Lower(s)
    decreases |s|
  {
    if |s| > 0 {
      LowerCharIsStable(s[0]);
      LowerOfStable(LowerChar(s[0]));
      LowerAppend(LowerChar(s[0]), Lower(s[1..]));
      LowerIdempotent(s[1..]);
    }
  }

  /** `lower()` turns whitespace into whitespace and nothing else into it. */
  lemma {:induction false} LowerKeepsBlankness(s: string)
    ensures IsBlank(Lower(s)) <==> IsBlank(s)
    decreases |s|
  {
    if |s| > 0 {
      LowerKeepsBlankness(s[1..]);
      BlankAppend(LowerChar(s[0]), Lower(s[1..]));
      assert s == [s[0]] + s[1..];
      BlankAppend([s[0]], s[1..]);
      LowerCharKeepsBlankness(s[0]);
    }
  }

  lemma BlankAppend(a: string, b: string)
    ensures IsBlank(a + b) <==> IsBlank(a) && IsBlank(b)
  {
    if IsBlank(a) && IsBlank(b) {
      forall k | 0 <= k < |a + b|
        ensures IsSpace((a + b)[k])
      {
        if k >= |a| {
          assert (a + b)[k] == b[k - |a|];
        }
      }
    }
    if IsBlank(a + b) {
      forall k | 0 <= k < |a|
        ensures IsSpace(a[k])
      {
        assert (a + b)[k] == a[k];
      }
      forall k | 0 <= k < |b|
        ensures IsSpace(b[k])
      {
        assert (a + b)[|a| + k] == b[k];
      }
    }
  }

  lemma LowerCharKeepsBlankness(c: char)
    ensures IsBlank(LowerChar(c)) <==> IsSpace(c)
  {
    if IsSpace(c) {
      assert LowerChar(c) == [c];
    } else {
      assert !IsSpace(LowerChar(c)[0]);
    }
  }

  /** The case folding `re.IGNORECASE` applies when a pattern letter is ASCII:
      an ASCII capital matches its small letter, and so do the four other
      characters Python's `re` treats as case variants of `i`, `s` and `k`. */
  function Fold(c: char): char {
    if 'A' <= c <= 'Z' then (c as int + 32) as char
    else if c == '\U{130}' || c == '\U{131}' then 'i'
    else if c == '\U{17F}' then 's'
    else if c == '\U{212A}' then 'k'
    else c
  }

  /** Folding identifies each ASCII capital with its small letter and fixes
      the small letters. */
  lemma FoldIgnoresAsciiCase(c: char)
    requires 'a' <= c <= 'z'
    ensures Fold(c) == c
    ensures Fold((c as int - 32) as char) == c
  {
  }

  /** One pattern character of a regular expression built from literals and
      `.` (any character but a newline), compiled with `re.IGNORECASE`. */
  predicate PatternCharMatches(c: char, p: char) {
    if p == '.' then c != '\n' else Fold(c) == Fold(p)
  }

  predicate MatchesAt(s: string, i: nat, pattern: string)
    requires i + |pattern| <= |s|
  {
    forall k :: 0 <= k < |pattern| ==> PatternCharMatches(s[i + k], pattern[k])
  }

  /** `Series.str.contains(pattern, case=False)` on one cell, for a pattern
      whose only metacharacter is `.`: some position of `s` matches. */
  predicate SearchIgnoreCase(s: string, pattern: string) {
    exists i: nat | i + |pattern| <= |s| :: MatchesAt(s, i, pattern)
  }

  /** A literal occurrence of the pattern text is a match. */
  lemma OccurrenceMatches(s: string, p: string)
    requires Contains(s, p)
    requires '\n' !in p
    ensures SearchIgnoreCase(s, p)
  {
    var i: nat :| i <= |s| && InfixAt(s, p, i);
    forall k | 0 <= k < |p|
      ensures PatternCharMatches(s[i + k], p[k])
    {
      assert s[i + k] == s[i..i + |p|][k];
      assert p[k] != '\n';
    }
    assert MatchesAt(s, i, p);
  }
}
