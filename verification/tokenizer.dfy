/** Word splitting in `classify_gender` (filter_instagram.py): every run of
    characters outside the token alphabet becomes one space
    (`re.sub(r'[^a-zа-яёїієґ]+', ' ', text)`), and the result is split on
    whitespace (`str.split()`). The model follows those two steps literally and
    proves that together they cut the text into its maximal runs of token
    characters. */
module Tokenizer {
  import opened Collections
  import opened PyStrings

  /** The token alphabet `a-z а-я ё ї і є ґ` of the character class. */
  predicate IsTokenChar(c: char) {
    || ('a' <= c <= 'z')
    || ('\U{430}' <= c <= '\U{44F}')
    || c == '\U{451}' || c == '\U{457}' || c == '\U{456}' || c == '\U{454}' || c == '\U{491}'
  }

  /** A character the negated class `[^...]` matches. */
  predicate IsNonToken(c: char) {
    !IsTokenChar(c)
  }

  /** Number of leading characters of `s` that are separators. */
  function SeparatorRun(s: string, isSep: char -> bool): (n: nat)
    ensures n <= |s|
    ensures forall k :: 0 <= k < n ==> isSep(s[k])
    ensures n < |s| ==> !isSep(s[n])
    decreases |s|
  {
    if |s| > 0 && isSep(s[0]) then 1 + SeparatorRun(s[1..], isSep) else 0
  }

  /** Number of leading characters of `s` that are not separators. */
  function WordRun(s: string, isSep: char -> bool): (n: nat)
    ensures n <= |s|
    ensures forall k :: 0 <= k < n ==> !isSep(s[k])
    ensures n < |s| ==> isSep(s[n])
    decreases |s|
  {
    if |s| > 0 && !isSep(s[0]) then 1 + WordRun(s[1..], isSep) else 0
  }

  /** The maximal runs of non-separator characters of `s`, left to right.
      With `IsSpace` as separator this is Python's `str.split()`. */
  function Split(s: string, isSep: char -> bool): (r: seq<string>)
    ensures forall i :: 0 <= i < |r| ==> |r[i]| > 0
    ensures forall i, k :: 0 <= i < |r| && 0 <= k < |r[i]| ==> !isSep(r[i][k])
    decreases |s|
  {
    if |s| == 0 then []
    else if isSep(s[0]) then Split(s[1..], isSep)
    else
      var n := WordRun(s, isSep);
      [s[..n]] + Split(s[n..], isSep)
  }

  /** The characters a split keeps: those that are not separators. */
  function NotSep(isSep: char -> bool): char -> bool {
    c => !isSep(c)
  }

  /** The pieces laid end to end. */
  function Concat(pieces: seq<string>): string
    decreases |pieces|
  {
    if |pieces| == 0 then [] else pieces[0] + Concat(pieces[1..])
  }

  /** Nothing but separators is dropped by a split: the pieces, laid end to
      end, are exactly the non-separator characters of `s` in order. */
  lemma {:induction false} SplitKeepsWordCharacters(s: string, isSep: char -> bool)
    ensures Concat(Split(s, isSep)) == Filter(s, NotSep(isSep))
    decreases |s|
  {
    if |s| > 0 {
      if isSep(s[0]) {
        SplitKeepsWordCharacters(s[1..], isSep);
      } else {
        var n := WordRun(s, isSep);
        var rest := Split(s[n..], isSep);
        assert Split(s, isSep) == [s[..n]] + rest;
        assert ([s[..n]] + rest)[1..] == rest;
        SplitKeepsWordCharacters(s[n..], isSep);
        assert s == s[..n] + s[n..];
        FilterAppend(s[..n], s[n..], NotSep(isSep));
        FilterKeepsAll(s[..n], NotSep(isSep));
      }
    }
  }

  /** `sep.join(words)` for a one-character separator. */
  function JoinWith(words: seq<string>, sep: char): string
    decreases |words|
  {
    if |words| == 0 then []
    else if |words| == 1 then words[0]
    else words[0] + [sep] + JoinWith(words[1..], sep)
  }

  /** Splitting cuts at every separator and only there: joining non-empty
      separator-free words with a separator and splitting the result gives
      the words back. */
  lemma {:induction false} SplitJoinWith(words: seq<string>, sep: char, isSep: char -> bool)
    requires isSep(sep)
    requires forall i :: 0 <= i < |words| ==> |words[i]| > 0
    requires forall i, k :: 0 <= i < |words| && 0 <= k < |words[i]| ==> !isSep(words[i][k])
    ensures Split(JoinWith(words, sep), isSep) == words
    decreases |words|
  {
    if |words| == 1 {
      SplitWordThenSeparator(words[0], [], isSep);
      assert words[0] + [] == words[0];
    } else if |words| > 1 {
      var tail := JoinWith(words[1..], sep);
      var y := [sep] + tail;
      assert JoinWith(words, sep) == words[0] + y;
      SplitWordThenSeparator(words[0], y, isSep);
      assert y[1..] == tail;
      SplitJoinWith(words[1..], sep, isSep);
      assert words == [words[0]] + words[1..];
    }
  }

  /** `re.sub(r'[^a-zа-яёїієґ]+', ' ', s)`: each maximal run of characters
      outside the alphabet is replaced by a single space. */
  function ReplaceSeparatorRuns(s: string): (r: string)
    ensures |r| <= |s|
    decreases |s|
  {
    if |s| == 0 then []
    else if IsTokenChar(s[0]) then [s[0]] + ReplaceSeparatorRuns(s[1..])
    else [' '] + ReplaceSeparatorRuns(s[SeparatorRun(s, IsNonToken)..])
  }

  /** The substitution neither loses, adds nor reorders token characters. */
  lemma {:induction false} SubstitutionKeepsTokenChars(s: string)
    ensures Filter(ReplaceSeparatorRuns(s), IsTokenChar) == Filter(s, IsTokenChar)
    decreases |s|
  {
    if |s| > 0 {
      if IsTokenChar(s[0]) {
        SubstitutionKeepsTokenChars(s[1..]);
        assert ([s[0]] + ReplaceSeparatorRuns(s[1..]))[1..] == ReplaceSeparatorRuns(s[1..]);
      } else {
        var m := SeparatorRun(s, IsNonToken);
        SubstitutionKeepsTokenChars(s[m..]);
        assert ([' '] + ReplaceSeparatorRuns(s[m..]))[1..] == ReplaceSeparatorRuns(s[m..]);
        assert s == s[..m] + s[m..];
        FilterAppend(s[..m], s[m..], IsTokenChar);
        FilterDropsAll(s[..m], IsTokenChar);
      }
    }
  }

  /** A run of characters outside the alphabet, followed by nothing or by a
      token character, becomes exactly one space. */
  lemma SubstitutionOfRun(run: string, y: string)
    requires |run| > 0 && forall k :: 0 <= k < |run| ==> !IsTokenChar(run[k])
    requires |y| == 0 || IsTokenChar(y[0])
    ensures ReplaceSeparatorRuns(run + y) == [' '] + ReplaceSeparatorRuns(y)
  {
    SeparatorRunOfRun(run, y);
    assert (run + y)[0] == run[0];
    assert (run + y)[|run|..] == y;
  }

  /** The comma and space between two words become a single space. */
  lemma SubstitutionExample()
    ensures ReplaceSeparatorRuns("a, b") == "a b"
  {
    ReplaceKeepsWord("a", ", b");
    SubstitutionOfRun(", ", "b");
    ReplaceKeepsWord("b", "");
    assert "a" + ", b" == "a, b";
    assert ", " + "b" == ", b";
    assert "b" + "" == "b";
  }

  lemma {:induction false} SeparatorRunOfRun(run: string, y: string)
    requires forall k :: 0 <= k < |run| ==> !IsTokenChar(run[k])
    requires |y| == 0 || IsTokenChar(y[0])
    ensures SeparatorRun(run + y, IsNonToken) == |run|
    decreases |run|
  {
    if |run| == 0 {
      assert run + y == y;
    } else {
      assert (run + y)[1..] == run[1..] + y;
      SeparatorRunOfRun(run[1..], y);
    }
  }

  /** Every character of the substituted text outside the alphabet is a
      single space standing for a whole run: the next character, if any, is
      a token character. */
  lemma {:induction false} SubstitutionLeavesSingleSpaces(s: string)
    ensures forall k :: 0 <= k < |ReplaceSeparatorRuns(s)| && !IsTokenChar(ReplaceSeparatorRuns(s)[k]) ==>
      ReplaceSeparatorRuns(s)[k] == ' ' && (k + 1 == |ReplaceSeparatorRuns(s)| || IsTokenChar(ReplaceSeparatorRuns(s)[k + 1]))
    decreases |s|
  {
    if |s| > 0 {
      var r := ReplaceSeparatorRuns(s);
      if IsTokenChar(s[0]) {
        var t := ReplaceSeparatorRuns(s[1..]);
        SubstitutionLeavesSingleSpaces(s[1..]);
        assert r == [s[0]] + t;
        forall k | 0 <= k < |r| && !IsTokenChar(r[k])
          ensures r[k] == ' ' && (k + 1 == |r| || IsTokenChar(r[k + 1]))
        {
          assert k > 0 && r[k] == t[k - 1];
          if k + 1 < |r| {
            assert r[k + 1] == t[k];
          }
        }
      } else {
        var m := SeparatorRun(s, IsNonToken);
        var t := ReplaceSeparatorRuns(s[m..]);
        SubstitutionLeavesSingleSpaces(s[m..]);
        assert r == [' '] + t;
        if |t| > 0 {
          assert IsTokenChar(s[m]);
          assert t[0] == s[m];
        }
        forall k | 0 <= k < |r| && !IsTokenChar(r[k])
          ensures r[k] == ' ' && (k + 1 == |r| || IsTokenChar(r[k + 1]))
        {
          if k > 0 {
            assert r[k] == t[k - 1];
            if k + 1 < |r| {
              assert r[k + 1] == t[k];
            }
          }
        }
      }
    }
  }

  /** `set(cleaned_text.split())` before it becomes a set: the words the
      classifier looks at, in text order. */
  function Tokens(text: string): seq<string> {
    Split(ReplaceSeparatorRuns(text), IsSpace)
  }

  /** No whitespace character belongs to the token alphabet. */
  lemma TokenCharIsNotSpace(c: char)
    requires IsTokenChar(c)
    ensures !IsSpace(c)
  {
  }

  /** Leading separators do not change the split. */
  lemma {:induction false} SplitSkipsSeparators(s: string, isSep: char -> bool, m: nat)
    requires m <= |s|
    requires forall k :: 0 <= k < m ==> isSep(s[k])
    ensures Split(s, isSep) == Split(s[m..], isSep)
    decreases m
  {
    if m > 0 {
      assert s[1..][m - 1..] == s[m..];
      SplitSkipsSeparators(s[1..], isSep, m - 1);
    }
  }

  /** A word followed by nothing or by a separator is split off whole. */
  lemma {:induction false} SplitWordThenSeparator(w: string, y: string, isSep: char -> bool)
    requires |w| > 0
    requires forall k :: 0 <= k < |w| ==> !isSep(w[k])
    requires |y| == 0 || isSep(y[0])
    ensures Split(w + y, isSep) == [w] + Split(y, isSep)
  {
    var s := w + y;
    WordRunOfWord(w, y, isSep);
    assert s[..|w|] == w;
    assert s[|w|..] == y;
  }

  lemma {:induction false} WordRunOfWord(w: string, y: string, isSep: char -> bool)
    requires forall k :: 0 <= k < |w| ==> !isSep(w[k])
    requires |y| == 0 || isSep(y[0])
    ensures WordRun(w + y, isSep) == |w|
    decreases |w|
  {
    if |w| == 0 {
      assert w + y == y;
    } else {
      assert (w + y)[1..] == w[1..] + y;
      WordRunOfWord(w[1..], y, isSep);
    }
  }

  /** Token characters at the front are copied through by the substitution. */
  lemma ReplaceKeepsTokenPrefix(s: string, m: nat)
    requires m <= |s|
    requires forall k :: 0 <= k < m ==> IsTokenChar(s[k])
    ensures ReplaceSeparatorRuns(s) == s[..m] + ReplaceSeparatorRuns(s[m..])
  {
    assert s == s[..m] + s[m..];
    ReplaceKeepsWord(s[..m], s[m..]);
  }

  lemma {:induction false} ReplaceKeepsWord(w: string, y: string)
    requires forall k :: 0 <= k < |w| ==> IsTokenChar(w[k])
    ensures ReplaceSeparatorRuns(w + y) == w + ReplaceSeparatorRuns(y)
    decreases |w|
  {
    if |w| == 0 {
      assert w + y == y;
    } else {
      assert (w + y)[0] == w[0];
      assert (w + y)[1..] == w[1..] + y;
      ReplaceKeepsWord(w[1..], y);
      assert w == [w[0]] + w[1..];
    }
  }

  /** Substituting and then splitting on whitespace yields exactly the
      maximal runs of token characters: the two-step code and the one-step
      reading of it agree on every text. */
  lemma {:induction false} TokensAreTokenRuns(s: string)
    ensures Tokens(s) == Split(s, IsNonToken)
    decreases |s|
  {
    if |s| > 0 {
      if IsTokenChar(s[0]) {
        var n := WordRun(s, IsNonToken);
        var rest := s[n..];
        ReplaceKeepsTokenPrefix(s, n);
        var y := ReplaceSeparatorRuns(rest);
        forall k | 0 <= k < n
          ensures !IsSpace(s[..n][k])
        {
          TokenCharIsNotSpace(s[k]);
        }
        SplitWordThenSeparator(s[..n], y, IsSpace);
        if |rest| > 0 {
          var m := SeparatorRun(rest, IsNonToken);
          assert y == [' '] + ReplaceSeparatorRuns(rest[m..]);
          assert Split(y, IsSpace) == Split(ReplaceSeparatorRuns(rest[m..]), IsSpace) by {
            assert y[1..] == ReplaceSeparatorRuns(rest[m..]);
          }
          TokensAreTokenRuns(rest[m..]);
          SplitSkipsSeparators(rest, IsNonToken, m);
        }
      } else {
        var m := SeparatorRun(s, IsNonToken);
        var y := ReplaceSeparatorRuns(s);
        assert y[1..] == ReplaceSeparatorRuns(s[m..]);
        TokensAreTokenRuns(s[m..]);
        SplitSkipsSeparators(s, IsNonToken, m);
      }
    }
  }

  /** Every token is a non-empty word over the token alphabet. */
  lemma TokensAreWords(s: string)
    ensures forall i :: 0 <= i < |Tokens(s)| ==> |Tokens(s)[i]| > 0
    ensures forall i, k :: 0 <= i < |Tokens(s)| && 0 <= k < |Tokens(s)[i]| ==> IsTokenChar(Tokens(s)[i][k])
  {
    TokensAreTokenRuns(s);
  }

  /** The distinct words of `s` (`set(...split())` after the substitution). */
  function WordSet(s: string): (words: set<string>)
    ensures forall w :: w in words ==> |w| > 0 && forall k :: 0 <= k < |w| ==> IsTokenChar(w[k])
  {
    TokensAreWords(s);
    set t | t in Tokens(s)
  }

  /** A text without token characters has no words. */
  lemma NoTokenCharsNoWords(s: string)
    requires forall k :: 0 <= k < |s| ==> IsNonToken(s[k])
    ensures WordSet(s) == {}
  {
    TokensAreTokenRuns(s);
    SplitSkipsSeparators(s, IsNonToken, |s|);
    assert s[|s|..] == [];
  }
}
