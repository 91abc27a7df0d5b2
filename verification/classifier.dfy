/** The word lists and `classify_gender` (filter_instagram.py): a profile is
    marked female when its normalized words hit a business keyword, or, when
    no male exception is among them, a female name or a long word with a
    female ending. */
module Classifier {
  import opened Collections
  import opened PyStrings
  import opened Normalizer
  import opened Tokenizer

  datatype Verdict = Female | Keep

  /** The three databases the classifier consults. */
  datatype WordLists = WordLists(maleExceptions: set<string>, businessKeywords: set<string>, femaleNames: set<string>)

  /** A line of a word-list file that contributes a word: not blank, and not
      starting with `#` before any stripping. */
  predicate IsWordLine(line: string) {
    Strip(line) != [] && !StartsWith(line, "#")
  }

  /** `load_names_from_file`: the lines of the file (each with its line
      terminator), or None when the file does not exist. */
  function LoadNames(file: Option<seq<string>>): (r: set<string>)
    ensures file.None? ==> r == {}
    ensures forall w :: w in r ==> |w| > 0 && Lower(w) == w
  {
    match file
    case None => {}
    case Some(lines) =>
      LoadedWordsAreLower(lines);
      set line | line in lines && IsWordLine(line) :: Lower(Strip(line))
  }

  lemma LoadedWordsAreLower(lines: seq<string>)
    ensures forall line :: line in lines && IsWordLine(line) ==>
      |Lower(Strip(line))| > 0 && Lower(Lower(Strip(line))) == Lower(Strip(line))
  {
    forall line | line in lines && IsWordLine(line)
      ensures Lower(Lower(Strip(line))) == Lower(Strip(line))
    {
      LowerIdempotent(Strip(line));
    }
  }

  /** A file of comments and blank lines loads no word. */
  lemma CommentsLoadNothing(lines: seq<string>)
    requires forall line :: line in lines ==> !IsWordLine(line)
    ensures LoadNames(Some(lines)) == {}
  {
  }

  /** A one-line file loads the stripped, lowered line when it is a word
      line, and nothing otherwise. */
  lemma LoadSingleLine(line: string)
    ensures LoadNames(Some([line])) == if IsWordLine(line) then {Lower(Strip(line))} else {}
  {
    assert forall l :: l in [line] <==> l == line;
  }

  /** The comment test looks at the raw line, before stripping: an indented
      `#` line is a word, loaded stripped, `#` included. */
  lemma IndentedHashIsAWord()
    ensures LoadNames(Some(["  #x\n"])) == {"#x"}
  {
    var line := "  #x\n";
    IndentedHashLine();
    LowerHashX();
    LoadSingleLine(line);
  }

  lemma IndentedHashLine()
    ensures Strip("  #x\n") == "#x" && IsWordLine("  #x\n")
  {
    IndentedHashStrips();
    assert "  #x\n"[..1] == " ";
  }

  lemma IndentedHashStrips()
    ensures Strip("  #x\n") == "#x"
  {
    StripOfPadded("  ", "#x", "\n");
    assert "  " + "#x" + "\n" == "  #x\n";
  }

  lemma LowerHashX()
    ensures Lower("#x") == "#x"
  {
    assert "#x"[1..] == "x";
    assert "x"[1..] == "";
  }

  /** Loading two files and taking the union of their words is loading one
      file holding both: this is how the female name lists are merged. */
  lemma LoadNamesUnion(a: seq<string>, b: seq<string>)
    ensures LoadNames(Some(a)) + LoadNames(Some(b)) == LoadNames(Some(a + b))
  {
    assert forall line :: line in a + b <==> line in a || line in b;
  }

  /** `LoadNamesUnion` when either file may be missing. */
  lemma LoadOptionalUnion(a: Option<seq<string>>, b: Option<seq<string>>)
    ensures a.Some? && b.Some? ==> LoadNames(a) + LoadNames(b) == LoadNames(Some(a.value + b.value))
    ensures a.None? ==> LoadNames(a) + LoadNames(b) == LoadNames(b)
    ensures b.None? ==> LoadNames(a) + LoadNames(b) == LoadNames(a)
  {
    if a.Some? && b.Some? {
      LoadNamesUnion(a.value, b.value);
    }
  }

  /** The module-level databases: male exceptions, business keywords, and the
      union of the Ukrainian and Russian female name files. The female names
      are those of the two files read as one, or of the file that exists;
      every loaded word is non-empty and already lower case. */
  function BuildWordLists(males: Option<seq<string>>, business: Option<seq<string>>,
                          ukrainian: Option<seq<string>>, russian: Option<seq<string>>): (lists: WordLists)
    ensures lists.maleExceptions == LoadNames(males)
    ensures lists.businessKeywords == LoadNames(business)
    ensures forall w :: w in lists.femaleNames <==> w in LoadNames(ukrainian) || w in LoadNames(russian)
    ensures ukrainian.Some? && russian.Some? ==> lists.femaleNames == LoadNames(Some(ukrainian.value + russian.value))
    ensures ukrainian.None? ==> lists.femaleNames == LoadNames(russian)
    ensures russian.None? ==> lists.femaleNames == LoadNames(ukrainian)
    ensures forall w :: w in lists.femaleNames ==> |w| > 0 && Lower(w) == w
  {
    LoadOptionalUnion(ukrainian, russian);
    WordLists(LoadNames(males), LoadNames(business), LoadNames(ukrainian) + LoadNames(russian))
  }

  /** `FEMALE_ENDINGS`. */
  const FemaleEndings: set<string> := {"a", "ya", "ia", "ina", "ova", "eva", "skaya", "ivna", "yivna", "ovna"}

  /** `any(part.endswith(e) for e in FEMALE_ENDINGS)`. */
  predicate HasFemaleEnding(p: string) {
    exists e :: e in FemaleEndings && EndsWith(p, e)
  }

  /** Every ending of the list ends in `a`, and `a` is itself on the list,
      so the ending test is "the word ends in `a`". */
  lemma EndingsReduceToFinalA()
    ensures forall p :: HasFemaleEnding(p) <==> |p| > 0 && p[|p| - 1] == 'a'
  {
    forall p
      ensures HasFemaleEnding(p) <==> |p| > 0 && p[|p| - 1] == 'a'
    {
      if HasFemaleEnding(p) {
        var e :| e in FemaleEndings && EndsWith(p, e);
        EndingEndsInA(e);
        assert p[|p| - 1] == p[|p| - |e|..][|e| - 1];
      }
      if |p| > 0 && p[|p| - 1] == 'a' {
        assert p[|p| - 1..] == "a";
        assert "a" in FemaleEndings;
      }
    }
  }

  lemma EndingEndsInA(e: string)
    requires e in FemaleEndings
    ensures |e| > 0 && e[|e| - 1] == 'a'
  {
  }

  /** Some word of the list is among the parts (`any(w in parts for w in ...)`). */
  predicate Hits(words: set<string>, parts: set<string>) {
    exists w :: w in words && w in parts
  }

  /** A word the last-resort rule accepts: longer than three characters and
      ending in `a`. */
  predicate LastResortWord(p: string) {
    |p| > 3 && p[|p| - 1] == 'a'
  }

  /** The decision of `classify_gender` as a single rule: a business keyword
      always removes; otherwise a male exception always keeps; otherwise a
      female name or a last-resort word removes. */
  predicate FemaleRule(parts: set<string>, lists: WordLists) {
    || Hits(lists.businessKeywords, parts)
    || (!Hits(lists.maleExceptions, parts) &&
        (Hits(lists.femaleNames, parts) || exists p :: p in parts && LastResortWord(p)))
  }

  /** Priorities 3 to 6 of `classify_gender`, in the order the code checks
      them, on the set of words. */
  function DecideOnTokens(parts: set<string>, lists: WordLists): (v: Verdict)
    ensures v == Female <==> FemaleRule(parts, lists)
  {
    EndingsReduceToFinalA();
    if Hits(lists.businessKeywords, parts) then Female
    else if Hits(lists.maleExceptions, parts) then Keep
    else if Hits(lists.femaleNames, parts) then Female
    else if exists p :: p in parts && |p| > 3 && p !in lists.maleExceptions && HasFemaleEnding(p) then Female
    else Keep
  }

  /** `f"{username} {fullname}".lower()` */
  function CombinedText(username: string, fullname: string): string {
    Lower(username + " " + fullname)
  }

  /** `set(cleaned_text.split())` for the normalized text. */
  function TokenSet(text: string): set<string> {
    WordSet(NormalizeText(text))
  }

  /** `classify_gender`. A profile is removed exactly when the words of its
      normalized name satisfy the rule. */
  function Classify(username: string, fullname: string, lists: WordLists): (v: Verdict)
    ensures v == Female <==> FemaleRule(TokenSet(CombinedText(username, fullname)), lists)
  {
    var combined := CombinedText(username, fullname);
    if IsBlank(combined) then
      BlankHasNoTokens(combined);
      NoWordsFailRule(lists);
      Keep
    else DecideOnTokens(TokenSet(combined), lists)
  }

  /** A profile whose user name and full name are both blank is kept. */
  lemma BlankNameIsKept(username: string, fullname: string, lists: WordLists)
    requires IsBlank(username + " " + fullname)
    ensures Classify(username, fullname, lists) == Keep
  {
    LowerKeepsBlankness(username + " " + fullname);
  }

  /** Blank text has no words, so the early `return 'keep'` gives the same
      answer the rest of the function would. */
  lemma BlankHasNoTokens(text: string)
    requires IsBlank(text)
    ensures TokenSet(text) == {}
  {
    forall k | 0 <= k < |text|
      ensures !InKeyBlocks(text[k]) && IsNonToken(text[k])
    {
      SpaceIsNoKeyNoToken(text[k]);
    }
    NormalizeTextOutsideKeys(text);
    NoTokenCharsNoWords(text);
  }

  lemma SpaceIsNoKeyNoToken(c: char)
    requires IsSpace(c)
    ensures !InKeyBlocks(c) && IsNonToken(c)
  {
  }

  /** With no words, no rule fires. */
  lemma NoWordsFailRule(lists: WordLists)
    ensures !FemaleRule({}, lists)
  {
  }

  /** The early return for blank text is redundant: the classifier is the
      decision rule applied to the words of the normalized text. */
  lemma BlankCheckIsRedundant(username: string, fullname: string, lists: WordLists)
    ensures Classify(username, fullname, lists) == DecideOnTokens(TokenSet(CombinedText(username, fullname)), lists)
  {
  }

  /** A business keyword among the words removes the profile, whatever else
      is there, male exceptions included. */
  lemma BusinessKeywordRemoves(username: string, fullname: string, lists: WordLists, keyword: string)
    requires keyword in lists.businessKeywords && keyword in TokenSet(CombinedText(username, fullname))
    ensures Classify(username, fullname, lists) == Female
  {
  }

  /** The verdict depends on the set of words only: texts with the same
      words, in any order and with any repetition, classify alike. */
  lemma SameWordsSameVerdict(username: string, fullname: string, otherUser: string, otherFull: string, lists: WordLists)
    requires TokenSet(CombinedText(username, fullname)) == TokenSet(CombinedText(otherUser, otherFull))
    ensures Classify(username, fullname, lists) == Classify(otherUser, otherFull, lists)
  {
    BlankCheckIsRedundant(username, fullname, lists);
    BlankCheckIsRedundant(otherUser, otherFull, lists);
  }

  /** A male exception among the words keeps the profile even when a female
      name or a female ending is present, unless a business keyword is. */
  lemma MaleExceptionKeeps(username: string, fullname: string, lists: WordLists, male: string)
    requires male in lists.maleExceptions && male in TokenSet(CombinedText(username, fullname))
    requires !Hits(lists.businessKeywords, TokenSet(CombinedText(username, fullname)))
    ensures Classify(username, fullname, lists) == Keep
  {
  }

  /** A list entry that is empty or holds a character outside the token
      alphabet (a space, a digit, a capital) can never match a word. */
  lemma UnmatchableEntry(entry: string, text: string)
    requires |entry| == 0 || exists k :: 0 <= k < |entry| && !IsTokenChar(entry[k])
    ensures entry !in TokenSet(text)
  {
  }

  /** A name written with stylized small capitals is classified like the
      same name written in plain letters. */
  lemma StylizedNamesClassifyAlike(username: string, fullname: string, styledUser: string, styledFull: string, lists: WordLists)
    requires IsStylizedSpelling(CombinedText(styledUser, styledFull), CombinedText(username, fullname))
    ensures Classify(styledUser, styledFull, lists) == Classify(username, fullname, lists)
  {
    StylizedSpellingNormalizes(CombinedText(styledUser, styledFull), CombinedText(username, fullname));
    BlankCheckIsRedundant(username, fullname, lists);
    BlankCheckIsRedundant(styledUser, styledFull, lists);
  }
}
