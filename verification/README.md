# csvdatafilter in Dafny

This project models the two pure decision pipelines of csvdatafilter over data
that has already been parsed.

- **The CSV cleaner** (`clean_data.py`):
  - the choice between `,` and `;` as separator;
  - the detection of the footer block that an Instagram export tool appends;
  - the row sweeps;
  - the column drop, rename and completion steps;
  - the clearing of placeholder name cells.
- **The profile filter** (`filter_instagram.py`):
  - loading of the word lists;
  - the small-capital normalizer;
  - the tokenizer;
  - the priority-ordered `classify_gender`;
  - the row loop of `filter_instagram_data` with its counters.

Modules, one per concern:

- `Collections`: `Option`, order-preserving `Filter`, the search of a loop that returns at its first hit, and the subsequence relation.
- `PyStrings`: the parts of Python's `str` and `re` that the code relies on. These are `isspace`, `strip`, `startswith`/`endswith`/`in`, `count`, `lower`, and case-insensitive pattern search.
- `CsvFooter`: `find_footer_start`.
- `CsvCleaner`: `detect_csv_separator` and the table transformations of `clean_csv`.
- `Normalizer`: `normalize_text`.
- `Tokenizer`: `re.sub(r'[^a-zа-яёїієґ]+', ' ', …)` followed by `str.split()`.
- `Classifier`: `load_names_from_file`, `FEMALE_ENDINGS` and `classify_gender`.
- `FilterRun`: the `csv.DictReader` rows and the loop of `filter_instagram_data`.

## Where the code decides

These are the places where the code's exact wording fixes a behaviour that a quick reading might take otherwise. The model follows the code in each.

- A tie between commas and semicolons, including a line with neither, gives `;`, because the comparison `comma_count > semicolon_count` at clean_data.py:21 is strict.
- The footer candidate tests at clean_data.py:29-34 are case-sensitive. Only the `socialdeck.ai` test of the confirmation window (clean_data.py:47) lowers the cell first.
- The confirmation window `range(i, min(i + 5, len(df)))` at clean_data.py:39 starts at the candidate row itself. Its test accepts everything the candidate test accepts, so every candidate confirms at once. `find_footer_start` therefore returns the first candidate row (`CsvFooter.FindFooterStart`).
- `df.rename` maps each header name on its own. Two columns can end up with the same name (`userName` and `login`, for example). Headers are therefore modelled as sequences, duplicates included. `df[name]` at clean_data.py:139-140 acts on every column of that name, and `CsvCleaner.ClearNameCells` does too. `csv.DictReader` keeps the cell under the last column of a repeated name, and `FilterRun.ToRecord` does too. The model's own helper `CsvCleaner.Lookup`, used only to state `DropColumnsKeepsValues`, reads the first column of a name.
- The sweep patterns at clean_data.py:82-93 are regular expressions. The `.` in `socialdeck.ai` matches any character but a newline, and letter case is folded the way `re.IGNORECASE` folds it for ASCII patterns.
- Each `FEMALE_ENDINGS` entry ends in Latin `a`, and `a` is itself an entry. The ending rule is therefore "a word of more than three characters ends in `a`".
- The `part not in MALE_NAMES_EXCEPTIONS` test of the last rule (filter_instagram.py:80) can never be false. Any male exception among the words has already returned `'keep'`.
- `csv.DictReader` fills the columns a short line does not reach with `None`. `row.get("user_name", "")` returns that `None`, and the f-string of `classify_gender` turns it into the text `None`. The model keeps this (`FilterRun.Field`).
- A kept row with more cells than the header makes `DictWriter.writerow` (filter_instagram.py:114) raise. The generic handler then ends the run, and the rows already written stay written. The model reports this as `WriteFailed`.

## Model

| member | source | states |
|---|---|---|
| CsvCleaner.DetectSeparator | clean_data.py:12-21 | the separator is `,` exactly when the first line has strictly more commas than semicolons, and `;` otherwise |
| CsvCleaner.TieGivesSemicolon | clean_data.py:17-21 | equal comma and semicolon counts, zero included, give `;` |
| PyStrings.Count | clean_data.py:17-18 | `str.count` of one character is the number of its occurrences (multiset multiplicity) |
| PyStrings.Strip | clean_data.py:26 | `strip()` returns a piece of the input no longer than it, whose ends are not whitespace, and is empty exactly when the input is blank |
| PyStrings.StripIsInfix | clean_data.py:26 | the stripped text is the contiguous piece of the input that starts after its leading whitespace, and only whitespace lies before and after it |
| PyStrings.StripOfPadded | clean_data.py:26 | for any input made of whitespace, a middle part that is empty or has non-space ends, and whitespace, `strip()` returns exactly that middle part |
| CsvFooter.CandidateConfirms | clean_data.py:29-47 | every cell that passes the candidate test also passes the window test |
| CsvFooter.IsFooterCandidate | clean_data.py:29-34 | the candidate test on a stripped first cell: a case-sensitive `Found profiles count:` prefix, `IG DM BOT:` exactly, one of the two `max on free plan` phrases, `""` or `"nan"` (its relation to the window test is `CandidateConfirms`) |
| CsvFooter.ConfirmsFooter | clean_data.py:42-47 | the window test: the candidate test, or `socialdeck.ai` in any letter case (`CandidateConfirms` shows it accepts every candidate) |
| Collections.FirstHit | clean_data.py:25-54 | a loop over rows `i .. n - 1` that returns at the first row passing its test gives that row, with no passing row before it, or None when no row passes |
| CsvFooter.StopsAtCandidate | clean_data.py:29-52 | the outer loop stops at a row exactly when that row is a candidate, because its window starts at the row itself |
| CsvFooter.FindFooterStart | clean_data.py:23-54 | the result is None exactly when no stripped first cell is a candidate; otherwise it is an in-range index of a candidate with no candidate before it |
| CsvCleaner.TruncateAtFooter | clean_data.py:70-73 | truncation keeps a prefix: all rows without a footer, exactly the rows before the index with one |
| CsvCleaner.FooterCut | clean_data.py:68-73 | the cut point is at most the row count, no row above it is a candidate, and the row at it is one |
| PyStrings.OccurrenceMatches | clean_data.py:92 | a literal occurrence of a pattern without newlines is a case-insensitive match of it |
| PyStrings.Fold | clean_data.py:92 | the letter-case folding of `re.IGNORECASE` for ASCII patterns, including the four non-ASCII variants of `i`, `s` and `k` |
| PyStrings.FoldIgnoresAsciiCase | clean_data.py:92 | an ASCII capital folds to its small letter and small letters are fixed |
| PyStrings.SearchIgnoreCase | clean_data.py:92 | `str.contains(pattern, case=False)` on one cell: some position matches the pattern character by character, `.` matching anything but a newline (`OccurrenceMatches` relates it to a literal occurrence) |
| CsvCleaner.SweepIsOneFilter | clean_data.py:91-93 | the six sequential masks keep exactly the rows whose first cell matches no pattern, in order |
| CsvCleaner.SweepFooterLines | clean_data.py:91-93 | one masking pass per pattern in list order; `SweepIsOneFilter` proves it is a single filter on "no pattern matches the first cell" |
| CsvCleaner.AllMissingHasNoContent | clean_data.py:96-100 | a row whose cells are all missing has a missing first cell, so the later drops would remove it too |
| CsvCleaner.DropEmptyIsOneFilter | clean_data.py:95-100 | `dropna(how='all')` and the two first-cell drops together keep exactly the rows whose stripped first cell is neither `""` nor `"nan"` |
| CsvCleaner.DropEmptyRows | clean_data.py:95-100 | `dropna(how='all')` followed by the blank and `"nan"` first-cell drops; `DropEmptyIsOneFilter` proves it is one filter on the stripped first cell |
| CsvCleaner.CleanRows | clean_data.py:68-100 | footer truncation, the sweeps and the empty-row drops in that order; its meaning is proved by `CleanRowsKeepsDataAboveFooter`, `CleanRowsSound` and `CleanRowsIdempotent` |
| CsvCleaner.CleanRowsKeepsDataAboveFooter | clean_data.py:68-100 | the row phase keeps exactly the data rows above the first footer candidate, in order |
| CsvCleaner.CleanRowsSound | clean_data.py:78-100 | the surviving rows are a subsequence of the input; none has a footer pattern in any case, a blank first cell or a `"nan"` first cell |
| CsvCleaner.CleanRowsFromInput | clean_data.py:68-100 | every surviving row is a row of the input |
| CsvCleaner.DataRowIsNoCandidate | clean_data.py:29-34 | a row that survives the sweeps can never be taken for a footer start |
| CsvCleaner.CleanRowsIdempotent | clean_data.py:68-100 | cleaning already cleaned rows changes nothing |
| CsvCleaner.FooterBlockRemoved | clean_data.py:68-100 | data rows followed by a block that starts with a candidate clean to exactly the data rows |
| CsvCleaner.ProjectRow | clean_data.py:105-109 | a projected row has one cell per kept column |
| CsvCleaner.DropColumns | clean_data.py:105-109 | the four listed columns are gone; every other column is kept, in relative order; the rows stay rectangular |
| CsvCleaner.DropColumnsKeepsValues | clean_data.py:108-109 | every column that is not dropped holds the same value in every row after the drop |
| CsvCleaner.RenameColumns | clean_data.py:112-125 | each header name is mapped on its own through the four-entry map and the column count is kept; afterwards no source name is left, and `user_name`/`full_name` are present exactly when one of their sources was |
| CsvCleaner.AddMissingNameColumns | clean_data.py:130-136 | afterwards both name columns exist; added columns come last and hold `""`; the existing columns and cells are untouched, and nothing changes when both were present |
| CsvCleaner.MissingNameColumns | clean_data.py:131-136 | the names the completion step adds are exactly the name columns absent from the header, one or two of them, `user_name` first |
| CsvCleaner.AddMissingNameColumnsHeader | clean_data.py:131-136 | the completed header is the old header followed by exactly the missing name columns, so it grows by one for each name column that was absent |
| CsvCleaner.ClearNameCellWholeValue | clean_data.py:138-140 | the chained replacements blank a cell exactly when it is the whole text `"0"` or `"nan"`, so `"10"` and `"nana"` stay |
| CsvCleaner.ClearNameCells | clean_data.py:138-140 | name cells equal to `"0"` or `"nan"` become `""`; other name cells and all other columns are unchanged |
| CsvCleaner.ColumnPhase | clean_data.py:105-140 | after the column steps: no dropped or source names, both name columns, no `"0"`/`"nan"` name cells, the same row count |
| CsvCleaner.CompletedHeaderIsFinal | clean_data.py:131-136 | adding the missing name columns brings in no name the drop or the rename would act on |
| CsvCleaner.ColumnPhaseIdempotent | clean_data.py:105-140 | running the column steps again on their output changes nothing |
| CsvCleaner.CleanTable | clean_data.py:56-142 | `clean_csv` yields a well-formed table, with as many rows as the row phase keeps (at most the input's), both name columns, and no dropped or source names |
| Classifier.LoadNames | filter_instagram.py:12-20 | a missing file gives the empty set; every loaded word is non-empty and already lower case |
| Classifier.LoadSingleLine | filter_instagram.py:17 | a one-line file loads the stripped, lowered line when it is not blank and does not start with `#`, and nothing otherwise |
| Classifier.IndentedHashIsAWord | filter_instagram.py:17 | the comment test looks at the raw line: a file holding `  #x` loads the word `#x` |
| Classifier.CommentsLoadNothing | filter_instagram.py:17 | a file of comment lines (starting with `#` before stripping) and blank lines loads nothing |
| Classifier.LoadNamesUnion | filter_instagram.py:29 | the union of two loaded files is the load of both files' lines together |
| Classifier.LoadOptionalUnion | filter_instagram.py:29 | the union of two loads is the load of both files read as one, or the load of the file that exists when the other is missing |
| Classifier.BuildWordLists | filter_instagram.py:24-29 | the male and business lists are their files' words; the female names are the words of the two name files read as one (or of the one that exists), each non-empty and lower case |
| Classifier.EndingsReduceToFinalA | filter_instagram.py:32 | a word ends with one of the ten female endings exactly when its last character is Latin `a` |
| PyStrings.LowerIdempotent | filter_instagram.py:17 | `lower()` applied twice is `lower()` once |
| PyStrings.LowerKeepsBlankness | filter_instagram.py:55-56 | lowering the combined name leaves blank text blank and non-blank text non-blank |
| PyStrings.LowerChar | filter_instagram.py:55 | `str.lower()` of one character yields at least one character; `LowerCharIsStable` shows its output is left alone by a second lowering |
| PyStrings.Lower | filter_instagram.py:55 | `str.lower()` never shortens a text; `LowerAppend` and `LowerIdempotent` show it works character by character and is idempotent |
| Normalizer.ReplaceAllIsLookup | filter_instagram.py:44-45 | with no chained entries, the 26 sequential replacements act on a character like a dictionary lookup |
| Normalizer.NormalizeText | filter_instagram.py:36-46 | the 26 `str.replace` calls in table order; `NormalizeTextSpec` proves it keeps the length and replaces each character by its table entry |
| Normalizer.NormalizeTextSpec | filter_instagram.py:36-46 | the normalized text has the input's length, and each character is replaced by its table entry |
| Normalizer.NormalizeCharSpec | filter_instagram.py:38-43 | a stylized letter of the table becomes its Latin letter; a character not in the table is unchanged |
| Normalizer.NormalizeCharRange | filter_instagram.py:38-43 | a normalized character is unchanged or a Latin small letter, and Latin small letters are fixed |
| Normalizer.NormalizeTextWithoutKeys | filter_instagram.py:38-46 | a text in which no character is a key of the table is left unchanged |
| Normalizer.NormalizeTextOutsideKeys | filter_instagram.py:38-46 | a text with no character from the Unicode blocks the keys come from (whitespace and digits, for instance) is left unchanged |
| Normalizer.NormalizeIdempotent | filter_instagram.py:36-46 | normalizing twice is normalizing once |
| Normalizer.StylizedSpellingNormalizes | filter_instagram.py:36-46 | a stylized spelling of a word normalizes to the same text as the plain word |
| Tokenizer.Split | filter_instagram.py:64 | the pieces of a split are non-empty and contain no separator |
| Tokenizer.SplitKeepsWordCharacters | filter_instagram.py:64 | the pieces laid end to end are exactly the non-separator characters of the text, in order |
| Tokenizer.SplitJoinWith | filter_instagram.py:64 | splitting non-empty, separator-free words joined by a separator gives the words back, so a split cuts at every separator run and nowhere else |
| Tokenizer.SubstitutionKeepsTokenChars | filter_instagram.py:63 | the substitution keeps the token characters of the text, in order, and adds none |
| Tokenizer.SubstitutionLeavesSingleSpaces | filter_instagram.py:63 | every character of the substituted text outside the alphabet is a space followed by a token character or the end, so no two spaces are adjacent |
| Tokenizer.SubstitutionOfRun | filter_instagram.py:63 | a maximal run of characters outside the alphabet (followed by the end or a token character) becomes exactly one space |
| Tokenizer.SubstitutionExample | filter_instagram.py:63 | `"a, b"` becomes `"a b"`: the run between the words is replaced by one space, not deleted |
| Tokenizer.ReplaceKeepsTokenPrefix | filter_instagram.py:63 | token characters at the front of the text are copied through unchanged |
| Tokenizer.ReplaceSeparatorRuns | filter_instagram.py:63 | the `re.sub` step never lengthens the text; `ReplaceKeepsTokenPrefix` (token characters are copied) and `SubstitutionOfRun` (each maximal run becomes one space) together fix its output on every text |
| Tokenizer.Tokens | filter_instagram.py:63-64 | the substitution followed by the whitespace split; `TokensAreTokenRuns` proves it yields the maximal runs of token characters |
| Tokenizer.TokensAreTokenRuns | filter_instagram.py:63-64 | replacing each run of other characters by one space and splitting on whitespace yields exactly the maximal runs of token characters |
| Tokenizer.TokensAreWords | filter_instagram.py:63-64 | every token is a non-empty word over `a-z а-я ё ї і є ґ` |
| Tokenizer.WordSet | filter_instagram.py:64 | every member of the word set is a non-empty word over the token alphabet |
| Tokenizer.NoTokenCharsNoWords | filter_instagram.py:63-64 | a text with no token character has no words |
| Classifier.DecideOnTokens | filter_instagram.py:66-85 | the priority chain removes exactly when a business keyword is present, or, with no male exception present, a female name or a word of more than three characters ending in `a` is |
| Classifier.Classify | filter_instagram.py:50-85 | the profile is removed exactly when the words of its lowered, normalized name satisfy the rule above, the early return for a blank name included |
| Classifier.CombinedText | filter_instagram.py:55 | `f"{username} {fullname}".lower()`; `LowerKeepsBlankness` and `BlankNameIsKept` relate its blankness to the two names |
| Classifier.BlankNameIsKept | filter_instagram.py:55-57 | a profile whose user name and full name are both blank is kept |
| Classifier.BlankHasNoTokens | filter_instagram.py:55-64 | a blank combined name has no words |
| Classifier.BlankCheckIsRedundant | filter_instagram.py:55-57 | the early `return 'keep'` gives the same verdict the priority chain would |
| Classifier.BusinessKeywordRemoves | filter_instagram.py:67-68 | a business-keyword word removes the profile even next to a male exception |
| Classifier.MaleExceptionKeeps | filter_instagram.py:71-83 | with no business keyword, a male-exception word keeps the profile despite female names or endings |
| Classifier.SameWordsSameVerdict | filter_instagram.py:64 | names with the same set of words classify alike, whatever the order and repetition |
| Classifier.UnmatchableEntry | filter_instagram.py:63-75 | a list entry that is empty or has a character outside the token alphabet never matches any word |
| Classifier.StylizedNamesClassifyAlike | filter_instagram.py:55-64 | a name written in stylized small capitals classifies like its plain spelling |
| FilterRun.ZipFieldsSpec | filter_instagram.py:94 | zipping header and cells gives every header name the cell under its last occurrence |
| FilterRun.ToRecord | filter_instagram.py:94 | a row read under the header has every header name as a key; each holds the cell under its last occurrence, or None past the end of a short line; cells beyond the header are set aside |
| FilterRun.Records | filter_instagram.py:94-103 | the rows `DictReader` yields for the lines after the header; `RecordsAppend`, `BlankLineIsSkipped` and `ReadWriteRoundTrip` state what they are |
| FilterRun.RecordsAppend | filter_instagram.py:94-103 | the reader treats the lines one at a time: the rows of two stretches of lines are the rows of each, in order |
| FilterRun.BlankLineIsSkipped | filter_instagram.py:103 | a blank line yields no row, wherever it stands |
| FilterRun.RecordsOfSameData | filter_instagram.py:94-103 | the rows depend only on the non-blank lines |
| Collections.FilterSkipsRejected | filter_instagram.py:103 | an element the filter rejects can be removed before filtering without changing the result |
| FilterRun.Field | filter_instagram.py:105-106 | `row.get(name, "")` as the f-string renders it: the cell text, `""` for a column the header lacks (`MissingColumnReadsEmpty`), `"None"` past the end of a short line (`ShortLineReadsNone`) |
| FilterRun.OutputRow | filter_instagram.py:114 | `writerow` writes one cell per header name, in header order; its values are stated by `OutputRowOfRecord` and `DuplicateHeaderLastWins` |
| FilterRun.Padded | filter_instagram.py:99-114 | a line padded to the header width keeps its cells as a prefix and has `""` in every further column |
| FilterRun.OutputRowOfRecord | filter_instagram.py:94-114 | under a header without repeated names, reading a line no wider than the header and writing the row back gives the line padded with `""` to the header width |
| FilterRun.DuplicateHeaderLastWins | filter_instagram.py:94-114 | with the header `a,a` and the line `1,2`, the row holds `2` for `a` and the writer writes `2,2` |
| FilterRun.ReadWriteRoundTrip | filter_instagram.py:94-114 | under a header without repeated names, the rows read from lines no wider than the header are written back as the non-blank lines, in order, each padded to the header width |
| FilterRun.MissingColumnReadsEmpty | filter_instagram.py:105-106 | a column the header lacks reads as `""` |
| FilterRun.ShortLineReadsNone | filter_instagram.py:105-106 | a column a short line does not reach reads as the text `None` |
| FilterRun.FilterRecords | filter_instagram.py:99-114 | the header comes first; a completed loop counted every row and wrote exactly the kept rows, in order; a failed one stopped at the first kept row with surplus cells |
| FilterRun.FilterInstagramData | filter_instagram.py:87-119 | no header means nothing is written; otherwise the loop above runs with the classifier's verdicts. Removed profiles are exactly those classified female, and remaining = total − removed = rows written ≥ 0 |
| FilterRun.WrittenLinesFitHeader | filter_instagram.py:99-114 | every written line has one cell per header name |

## Left out

- File and process plumbing is not modelled:
  - opening, reading and writing files;
  - `find_csv_file`, both `main` functions and `preprocess_csv`/`filter_csv` with their temporary directory;
  - every `print`;
  - the `FileNotFoundError` and other exception messages, except the `writerow` error, which is modelled.
  
  These are I/O.
- The Telegram bot (`bot.py`), the Supabase uploader (`uploader.py`) and the SQLite store (`auth_db.py`) are not part of this model. They are network, concurrency and persistence code.
- `pandas.read_csv` parsing is left out: quoting, `skipinitialspace` and dtype inference. The cleaner starts from a table of string cells in which a missing value reads `"nan"`, as `str(NaN)` does. A numeric cell rendered by `str()` (such as `0.0` for a float column) is not modelled, so only the text `"0"` is cleared.
- `csv.reader` splitting of lines into cells is not modelled. The filter starts from the rows of cells of the file, with an empty row standing for a blank line.
- `CsvCleaner.CleanTable`: the requirement of at least one column reflects that `read_csv` either yields one or raises. The requirement of rectangular rows is pandas' own invariant.
- The model assumes the default positional index that `read_csv` gives. `find_footer_start` returns the row label, and the caller uses it as a position.
- `PyStrings.LowerChar` does not model all of Unicode `str.lower()`. It covers ASCII, the Cyrillic capitals U+0400–U+042F and U+0490, and the five other characters whose lowercase form is a Latin letter or a stylized letter of the normalizer's table (U+0130, U+01A6, U+01EA, U+212A, U+A7AE). Every other character is kept as it is.
- Other exceptions inside `filter_instagram_data` are not modelled; the write error is the one exception that is. Examples are decoding errors and a file that disappears between the separator check and the read.

