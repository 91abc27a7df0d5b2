/** `normalize_text` (filter_instagram.py): stylized small-capital letters
    are rewritten to the plain Latin letters they imitate. The function runs
    one `str.replace` per table entry, in table order; the model does the
    same and then shows that this is a character-by-character lookup. */
module Normalizer {

  /** The 26 entries of `normalization_map`, in their insertion order. The
      entry for `x` maps plain `x` to itself. */
  const NormalizationTable: seq<(char, char)> := [
    ('\U{1D00}', 'a'), ('\U{299}', 'b'), ('\U{1D04}', 'c'), ('\U{1D05}', 'd'),
    ('\U{1D07}', 'e'), ('\U{A730}', 'f'), ('\U{262}', 'g'), ('\U{29C}', 'h'),
    ('\U{26A}', 'i'), ('\U{1D0A}', 'j'), ('\U{1D0B}', 'k'), ('\U{29F}', 'l'),
    ('\U{1D0D}', 'm'), ('\U{274}', 'n'), ('\U{1D0F}', 'o'), ('\U{1D18}', 'p'),
    ('\U{1EB}', 'q'), ('\U{280}', 'r'), ('\U{A731}', 's'), ('\U{1D1B}', 't'),
    ('\U{1D1C}', 'u'), ('\U{1D20}', 'v'), ('\U{1D21}', 'w'), ('x', 'x'),
    ('\U{28F}', 'y'), ('\U{1D22}', 'z')
  ]

  /** `text.replace(target, replacement)` for one-character arguments. */
  function ReplaceChar(text: string, target: char, replacement: char): (r: string)
    ensures |r| == |text|
    ensures forall k :: 0 <= k < |text| ==> r[k] == (if text[k] == target then replacement else text[k])
    decreases |text|
  {
    if |text| == 0 then []
    else [if text[0] == target then replacement else text[0]] + ReplaceChar(text[1..], target, replacement)
  }

  /** The `for char, replacement in normalization_map.items()` loop: one
      replacement per entry, in order. */
  function ReplaceAll(text: string, table: seq<(char, char)>): string
    decreases |table|
  {
    if |table| == 0 then text
    else ReplaceAll(ReplaceChar(text, table[0].0, table[0].1), table[1..])
  }

  /** What the replacement loop does to a single character. */
  function ReplaceAllChar(c: char, table: seq<(char, char)>): char
    decreases |table|
  {
    if |table| == 0 then c
    else ReplaceAllChar(if c == table[0].0 then table[0].1 else c, table[1..])
  }

  /** Dictionary lookup: the replacement of the first entry for `c`, or `c`. */
  function Lookup(c: char, table: seq<(char, char)>): char
    decreases |table|
  {
    if |table| == 0 then c
    else if table[0].0 == c then table[0].1
    else Lookup(c, table[1..])
  }

  /** No replacement produces a character a later entry would rewrite into
      something else. */
  predicate NoChains(table: seq<(char, char)>) {
    forall i, j :: 0 <= i < j < |table| && table[i].1 == table[j].0 ==> table[j].1 == table[j].0
  }

  /** One character through `normalize_text`. */
  function NormalizeChar(c: char): char {
    Lookup(c, NormalizationTable)
  }

  /** `normalize_text`: the replacement loop over the table. */
  function NormalizeText(text: string): string {
    ReplaceAll(text, NormalizationTable)
  }

  /** Each character is replaced by its table entry; the rest of the text is
      left alone and the length is kept. */
  lemma NormalizeTextSpec(text: string)
    ensures |NormalizeText(text)| == |text|
    ensures forall k :: 0 <= k < |text| ==> NormalizeText(text)[k] == NormalizeChar(text[k])
  {
    TableHasNoChains();
    ReplaceAllPointwise(text, NormalizationTable);
    forall k | 0 <= k < |text|
      ensures ReplaceAllChar(text[k], NormalizationTable) == Lookup(text[k], NormalizationTable)
    {
      ReplaceAllIsLookup(text[k], NormalizationTable);
    }
  }

  /** The sequential replacements act on each character independently. */
  lemma {:induction false} ReplaceAllPointwise(text: string, table: seq<(char, char)>)
    ensures |ReplaceAll(text, table)| == |text|
    ensures forall k :: 0 <= k < |text| ==> ReplaceAll(text, table)[k] == ReplaceAllChar(text[k], table)
    decreases |table|
  {
    if |table| > 0 {
      ReplaceAllPointwise(ReplaceChar(text, table[0].0, table[0].1), table[1..]);
    }
  }

  /** A character no later entry changes passes the loop unchanged. */
  lemma {:induction false} ReplaceAllFixes(c: char, table: seq<(char, char)>)
    requires forall j :: 0 <= j < |table| && table[j].0 == c ==> table[j].1 == c
    ensures ReplaceAllChar(c, table) == c
    decreases |table|
  {
    if |table| > 0 {
      ReplaceAllFixes(c, table[1..]);
    }
  }

  /** Without chains, the sequential replacements are a dictionary lookup. */
  lemma {:induction false} ReplaceAllIsLookup(c: char, table: seq<(char, char)>)
    requires NoChains(table)
    ensures ReplaceAllChar(c, table) == Lookup(c, table)
    decreases |table|
  {
    if |table| > 0 {
      var rest := table[1..];
      assert NoChains(rest) by {
        forall i, j | 0 <= i < j < |rest| && rest[i].1 == rest[j].0
          ensures rest[j].1 == rest[j].0
        {
          assert table[i + 1] == rest[i] && table[j + 1] == rest[j];
        }
      }
      if c == table[0].0 {
        forall j | 0 <= j < |rest| && rest[j].0 == table[0].1
          ensures rest[j].1 == table[0].1
        {
          assert table[j + 1] == rest[j];
        }
        ReplaceAllFixes(table[0].1, rest);
      } else {
        ReplaceAllIsLookup(c, rest);
      }
    }
  }

  predicate IsAsciiLower(c: char) {
    'a' <= c <= 'z'
  }

  /** The blocks the keys of the table come from: `x`, and the IPA,
      phonetic-extension and Latin-extended-D letters. */
  predicate InKeyBlocks(c: char) {
    || c == 'x' || ('\U{1EB}' <= c <= '\U{29F}') || ('\U{1D00}' <= c <= '\U{1D22}')
    || ('\U{A730}' <= c <= '\U{A731}')
  }

  /** Facts about the concrete table: plain Latin replacements, distinct
      stylized letters, keys from a few small blocks, and the only plain key
      (`x`) maps to itself. */
  lemma TableFacts()
    ensures forall i :: 0 <= i < |NormalizationTable| ==> InKeyBlocks(NormalizationTable[i].0)
    ensures forall i :: 0 <= i < |NormalizationTable| ==> IsAsciiLower(NormalizationTable[i].1)
    ensures forall i :: 0 <= i < |NormalizationTable| && IsAsciiLower(NormalizationTable[i].0) ==>
      NormalizationTable[i].1 == NormalizationTable[i].0
    ensures forall i, j :: 0 <= i < j < |NormalizationTable| ==> NormalizationTable[i].0 != NormalizationTable[j].0
  {
    TableKeysInBlocks();
    TableValuesArePlain();
    TableKeysDistinct();
  }

  lemma TableKeysInBlocks()
    ensures forall i :: 0 <= i < |NormalizationTable| ==> InKeyBlocks(NormalizationTable[i].0)
  {
  }

  lemma TableValuesArePlain()
    ensures forall i :: 0 <= i < |NormalizationTable| ==> IsAsciiLower(NormalizationTable[i].1)
    ensures forall i :: 0 <= i < |NormalizationTable| && IsAsciiLower(NormalizationTable[i].0) ==>
      NormalizationTable[i].1 == NormalizationTable[i].0
  {
  }

  lemma TableKeysDistinct()
    ensures forall i, j :: 0 <= i < j < |NormalizationTable| ==> NormalizationTable[i].0 != NormalizationTable[j].0
  {
  }

  lemma TableHasNoChains()
    ensures NoChains(NormalizationTable)
  {
    TableFacts();
  }

  lemma {:induction false} LookupOfKey(table: seq<(char, char)>, i: nat)
    requires i < |table|
    requires forall a, b :: 0 <= a < b < |table| ==> table[a].0 != table[b].0
    ensures Lookup(table[i].0, table) == table[i].1
    decreases i
  {
    if i > 0 {
      assert table[0].0 != table[i].0;
      assert table[1..][i - 1] == table[i];
      LookupOfKey(table[1..], i - 1);
    }
  }

  lemma {:induction false} LookupOfNonKey(table: seq<(char, char)>, c: char)
    requires forall i :: 0 <= i < |table| ==> table[i].0 != c
    ensures Lookup(c, table) == c
    decreases |table|
  {
    if |table| > 0 {
      assert forall i :: 0 <= i < |table| - 1 ==> table[1..][i] == table[i + 1];
      LookupOfNonKey(table[1..], c);
    }
  }

  /** The normalizer rewrites each stylized letter of the table to its Latin
      letter and leaves every character that is not in the table alone. */
  lemma NormalizeCharSpec(c: char)
    ensures forall i :: 0 <= i < |NormalizationTable| && NormalizationTable[i].0 == c ==>
      NormalizeChar(c) == NormalizationTable[i].1
    ensures (forall i :: 0 <= i < |NormalizationTable| ==> NormalizationTable[i].0 != c) ==>
      NormalizeChar(c) == c
  {
    TableFacts();
    forall i | 0 <= i < |NormalizationTable| && NormalizationTable[i].0 == c
      ensures NormalizeChar(c) == NormalizationTable[i].1
    {
      LookupOfKey(NormalizationTable, i);
    }
    if forall i :: 0 <= i < |NormalizationTable| ==> NormalizationTable[i].0 != c {
      LookupOfNonKey(NormalizationTable, c);
    }
  }

  /** Characters outside the key blocks are left alone. */
  lemma NormalizeOutsideKeys(c: char)
    requires !InKeyBlocks(c)
    ensures NormalizeChar(c) == c
  {
    TableFacts();
    NormalizeCharSpec(c);
  }

  /** A text in which no character is a key of the table is left
      unchanged. */
  lemma NormalizeTextWithoutKeys(text: string)
    requires forall k, i :: 0 <= k < |text| && 0 <= i < |NormalizationTable| ==> NormalizationTable[i].0 != text[k]
    ensures NormalizeText(text) == text
  {
    forall k | 0 <= k < |text|
      ensures NormalizeChar(text[k]) == text[k]
    {
      NormalizeCharSpec(text[k]);
    }
    NormalizeTextFixes(text);
  }

  /** A text with no character from the blocks the keys come from (for
      instance whitespace and digits) is left unchanged. */
  lemma NormalizeTextOutsideKeys(text: string)
    requires forall k :: 0 <= k < |text| ==> !InKeyBlocks(text[k])
    ensures NormalizeText(text) == text
  {
    TableKeysInBlocks();
    NormalizeTextWithoutKeys(text);
  }

  /** A text whose characters are all their own normal form is its own
      normal form. */
  lemma NormalizeTextFixes(text: string)
    requires forall k :: 0 <= k < |text| ==> NormalizeChar(text[k]) == text[k]
    ensures NormalizeText(text) == text
  {
    NormalizeTextSpec(text);
    var n := NormalizeText(text);
    assert forall k :: 0 <= k < |n| ==> n[k] == text[k];
  }

  /** Normalizing a character yields a plain Latin letter or the character
      itself, and a plain Latin letter is its own normal form. */
  lemma NormalizeCharRange(c: char)
    ensures NormalizeChar(c) == c || IsAsciiLower(NormalizeChar(c))
    ensures IsAsciiLower(c) ==> NormalizeChar(c) == c
  {
    TableFacts();
    NormalizeCharSpec(c);
  }

  /** Normalizing twice is normalizing once. */
  lemma NormalizeIdempotent(text: string)
    ensures NormalizeText(NormalizeText(text)) == NormalizeText(text)
  {
    var once := NormalizeText(text);
    NormalizeTextSpec(text);
    NormalizeTextSpec(once);
    forall k | 0 <= k < |text|
      ensures NormalizeChar(once[k]) == once[k]
    {
      NormalizeCharRange(text[k]);
      NormalizeCharRange(once[k]);
    }
  }

  /** `styled` spells `plain` with some letters written as their stylized
      forms from the table. */
  predicate IsStylizedSpelling(styled: string, plain: string) {
    |styled| == |plain| &&
    forall k :: 0 <= k < |styled| ==>
      styled[k] == plain[k] || (styled[k], plain[k]) in NormalizationTable
  }

  /** A stylized letter and the Latin letter it stands for have the same
      normal form. */
  lemma StylizedLetterNormalizes(i: nat)
    requires i < |NormalizationTable|
    ensures NormalizeChar(NormalizationTable[i].0) == NormalizeChar(NormalizationTable[i].1)
  {
    TableFacts();
    LookupOfKey(NormalizationTable, i);
    NormalizeCharRange(NormalizationTable[i].1);
  }

  /** Position by position, a stylized spelling and its plain form have the
      same normal form. */
  lemma StylizedPositionNormalizes(styled: string, plain: string, k: nat)
    requires IsStylizedSpelling(styled, plain)
    requires k < |styled|
    ensures NormalizeChar(styled[k]) == NormalizeChar(plain[k])
  {
    if styled[k] != plain[k] {
      var i :| 0 <= i < |NormalizationTable| && NormalizationTable[i] == (styled[k], plain[k]);
      StylizedLetterNormalizes(i);
    }
  }

  /** Texts whose characters have pairwise equal normal forms normalize to
      the same text. */
  lemma NormalizeTextPointwise(a: string, b: string)
    requires |a| == |b|
    requires forall k :: 0 <= k < |a| ==> NormalizeChar(a[k]) == NormalizeChar(b[k])
    ensures NormalizeText(a) == NormalizeText(b)
  {
    NormalizeTextSpec(a);
    NormalizeTextSpec(b);
    var na := NormalizeText(a);
    var nb := NormalizeText(b);
    assert forall k :: 0 <= k < |na| ==> na[k] == nb[k];
  }

  /** A stylized spelling normalizes to the same text as its plain form. */
  lemma StylizedSpellingNormalizes(styled: string, plain: string)
    requires IsStylizedSpelling(styled, plain)
    ensures NormalizeText(styled) == NormalizeText(plain)
  {
    forall k | 0 <= k < |styled|
      ensures NormalizeChar(styled[k]) == NormalizeChar(plain[k])
    {
      StylizedPositionNormalizes(styled, plain, k);
    }
    NormalizeTextPointwise(styled, plain);
  }
}
