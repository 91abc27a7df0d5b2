/** The table cleaning of `clean_csv` (clean_data.py): separator detection,
    footer truncation, the row sweeps, and the column drop/rename/completion
    steps. The table is taken as pandas holds it after `read_csv`: a header
    and rows of string cells, a missing cell being the text `"nan"` that
    `str()` gives for NaN. */
module CsvCleaner {
  import opened Collections
  import opened PyStrings
  import opened CsvFooter

  // ---------------------------------------------------------------------
  // Separator
  // ---------------------------------------------------------------------

  /** `detect_csv_separator` on the first line of the file: a comma only when
      commas strictly outnumber semicolons, a semicolon otherwise. */
  function DetectSeparator(firstLine: string): (sep: char)
    ensures sep == ',' || sep == ';'
    ensures sep == ',' <==> multiset(firstLine)[','] > multiset(firstLine)[';']
  {
    if Count(firstLine, ',') > Count(firstLine, ';') then ',' else ';'
  }

  /** A tie, including a line with neither character, gives a semicolon. */
  lemma TieGivesSemicolon(firstLine: string)
    requires multiset(firstLine)[','] == multiset(firstLine)[';']
    ensures DetectSeparator(firstLine) == ';'
  {
  }

  // ---------------------------------------------------------------------
  // Tables
  // ---------------------------------------------------------------------

  type Row = seq<string>

  datatype Table = Table(header: seq<string>, rows: seq<Row>)

  /** How `str()` renders a missing (NaN) cell. */
  const Missing: string := "nan"

  /** Every row has one cell per header entry. */
  predicate Rectangular(t: Table) {
    forall i :: 0 <= i < |t.rows| ==> |t.rows[i]| == |t.header|
  }

  /** What `read_csv` delivers: at least one column, rows of header width. */
  predicate WellFormed(t: Table) {
    |t.header| >= 1 && Rectangular(t)
  }

  /** `row.iloc[0]`; a row of a well-formed table always has one, and a row
      without cells reads as missing. */
  function FirstCell(r: Row): string {
    if |r| == 0 then Missing else r[0]
  }

  function FirstColumn(rows: seq<Row>): seq<string> {
    seq(|rows|, i requires 0 <= i < |rows| => FirstCell(rows[i]))
  }

  /** The value of column `name` in `row` (the first column of that name). */
  function Lookup(header: seq<string>, row: Row, name: string): Option<string>
    requires |row| == |header|
    decreases |header|
  {
    if |header| == 0 then None
    else if header[0] == name then Some(row[0])
    else Lookup(header[1..], row[1..], name)
  }

  // ---------------------------------------------------------------------
  // Row phase of `clean_csv`: footer truncation and the sweeps
  // ---------------------------------------------------------------------

  /** `df.iloc[:footer_start]` when a footer was found, the table otherwise. */
  function TruncateAtFooter(rows: seq<Row>, footerStart: Option<nat>): (r: seq<Row>)
    ensures |r| <= |rows| && r == rows[..|r|]
    ensures footerStart.None? ==> r == rows
    ensures footerStart.Some? && footerStart.value <= |rows| ==> |r| == footerStart.value
  {
    match footerStart
    case None => rows
    case Some(k) => if k <= |rows| then rows[..k] else rows
  }

  /** The phrases whose presence in the first cell removes a row. Each is a
      regular expression; `.` is its only metacharacter. */
  const FooterPatterns: seq<string> := [
    "Found profiles count:",
    "IG DM BOT:",
    "socialdeck.ai",
    "https://socialdeck.ai",
    "profiles max on free plan",
    "max on free plan"
  ]

  /** No footer pattern occurs, in any letter case, in the first cell. */
  predicate MatchesNoPattern(r: Row, patterns: seq<string>) {
    forall k :: 0 <= k < |patterns| ==> !SearchIgnoreCase(FirstCell(r), patterns[k])
  }

  /** The `for pattern in footer_patterns` loop: one masking pass per
      pattern, in order. */
  function SweepFooterLines(rows: seq<Row>, patterns: seq<string>): seq<Row>
    decreases |patterns|
  {
    if |patterns| == 0 then rows
    else SweepFooterLines(Filter(rows, r => !SearchIgnoreCase(FirstCell(r), patterns[0])), patterns[1..])
  }

  /** Every cell of the row is missing. */
  predicate AllMissing(r: Row) {
    forall k :: 0 <= k < |r| ==> r[k] == Missing
  }

  /** `dropna(how='all')`, then the rows whose stripped first
      cell is empty, then those whose stripped first cell is `"nan"`. */
  function DropEmptyRows(rows: seq<Row>): seq<Row> {
    var notAllMissing := Filter(rows, r => !AllMissing(r));
    var notBlank := Filter(notAllMissing, r => Strip(FirstCell(r)) != "");
    Filter(notBlank, r => Strip(FirstCell(r)) != Missing)
  }

  /** The row phase of `clean_csv`: truncate at the footer, sweep, drop
      empty rows. */
  function CleanRows(rows: seq<Row>): seq<Row> {
    var kept := TruncateAtFooter(rows, FindFooterStart(FirstColumn(rows)));
    DropEmptyRows(SweepFooterLines(kept, FooterPatterns))
  }

  /** The stripped first cell is neither empty nor missing. */
  predicate HasContent(r: Row) {
    Strip(FirstCell(r)) != "" && Strip(FirstCell(r)) != Missing
  }

  /** The rows the sweeps let through. */
  predicate IsDataRow(r: Row) {
    MatchesNoPattern(r, FooterPatterns) && HasContent(r)
  }

  /** The six sequential masks are one mask by all six patterns. */
  lemma {:induction false} SweepIsOneFilter(rows: seq<Row>, patterns: seq<string>)
    ensures SweepFooterLines(rows, patterns) == Filter(rows, r => MatchesNoPattern(r, patterns))
    decreases |patterns|
  {
    if |patterns| == 0 {
      FilterKeepsAll(rows, r => MatchesNoPattern(r, patterns));
    } else {
      var first := r => !SearchIgnoreCase(FirstCell(r), patterns[0]);
      var rest := r => MatchesNoPattern(r, patterns[1..]);
      var all := r => MatchesNoPattern(r, patterns);
      var swept := Filter(rows, first);
      SweepIsOneFilter(swept, patterns[1..]);
      forall r ensures all(r) == (first(r) && rest(r)) {
        assert forall k :: 1 <= k < |patterns| ==> patterns[k] == patterns[1..][k - 1];
      }
      FilterFilter(rows, first, rest, all);
      FilterExtensional(swept, rest, r => MatchesNoPattern(r, patterns[1..]));
    }
  }

  lemma StripMissing()
    ensures Strip(Missing) == Missing
  {
    assert !IsSpace(Missing[0]) && !IsSpace(Missing[2]);
  }

  /** A row whose cells are all missing has a missing first cell. */
  lemma AllMissingHasNoContent(r: Row)
    requires AllMissing(r)
    ensures !HasContent(r)
  {
    StripMissing();
    if |r| > 0 {
      assert r[0] == Missing;
    }
  }

  /** The three drops of DropEmptyRows are one drop by the first cell; the
      `dropna` pass never removes a row the next two would keep. */
  lemma DropEmptyIsOneFilter(rows: seq<Row>)
    ensures DropEmptyRows(rows) == Filter(rows, HasContent)
  {
    var a := r => !AllMissing(r);
    var b := r => Strip(FirstCell(r)) != "";
    var c := r => Strip(FirstCell(r)) != Missing;
    var ab := r => !AllMissing(r) && Strip(FirstCell(r)) != "";
    var abc := r => !AllMissing(r) && HasContent(r);
    FilterFilter(rows, a, b, ab);
    FilterFilter(rows, ab, c, abc);
    forall r | AllMissing(r)
      ensures !HasContent(r)
    {
      AllMissingHasNoContent(r);
    }
    FilterExtensional(rows, abc, HasContent);
  }

  /** Where the row phase cuts the rows: at the first footer candidate, or
      at the end when there is none. */
  function FooterCut(rows: seq<Row>): (cut: nat)
    ensures cut <= |rows|
    ensures forall k :: 0 <= k < cut ==> !IsFooterCandidate(Strip(FirstCell(rows[k])))
    ensures cut < |rows| ==> IsFooterCandidate(Strip(FirstCell(rows[cut])))
  {
    var col := FirstColumn(rows);
    assert forall k :: 0 <= k < |rows| ==> col[k] == FirstCell(rows[k]);
    match FindFooterStart(col)
    case None => |rows|
    case Some(k) => k
  }

  /** The row phase keeps exactly the data rows above the first footer
      candidate, in their original order. */
  lemma CleanRowsKeepsDataAboveFooter(rows: seq<Row>)
    ensures CleanRows(rows) == Filter(rows[..FooterCut(rows)], IsDataRow)
  {
    var kept := TruncateAtFooter(rows, FindFooterStart(FirstColumn(rows)));
    assert kept == rows[..FooterCut(rows)];
    var noPattern := r => MatchesNoPattern(r, FooterPatterns);
    SweepIsOneFilter(kept, FooterPatterns);
    DropEmptyIsOneFilter(Filter(kept, noPattern));
    FilterFilter(kept, noPattern, HasContent, IsDataRow);
  }

  /** The row phase returns rows of its input, in input order, and none of
      them has a footer phrase, a blank or a missing first cell. */
  lemma CleanRowsSound(rows: seq<Row>)
    ensures IsSubsequence(CleanRows(rows), rows)
    ensures forall i :: 0 <= i < |CleanRows(rows)| ==> IsDataRow(CleanRows(rows)[i])
  {
    CleanRowsKeepsDataAboveFooter(rows);
    FilterIsSubsequence(rows[..FooterCut(rows)], IsDataRow);
    SubsequenceOfPrefix(CleanRows(rows), rows, FooterCut(rows));
  }

  /** A pattern the sweep found nowhere in the cell is not in its stripped
      form either. */
  lemma StrippedCellLacksPattern(r: Row, k: nat)
    requires MatchesNoPattern(r, FooterPatterns)
    requires k < |FooterPatterns|
    ensures !Contains(Strip(FirstCell(r)), FooterPatterns[k])
  {
    var cell := FirstCell(r);
    var p := FooterPatterns[k];
    assert !SearchIgnoreCase(cell, p);
    if Contains(Strip(cell), p) {
      PatternHasNoNewline(k);
      StripIsInfix(cell);
      ContainsInInfix(cell, LeadingSpace(cell), Strip(cell), p);
      OccurrenceMatches(cell, p);
      assert false;
    }
  }

  /** No sweep pattern spans a line break, so the regular expression's `.`
      never has to match one. */
  lemma PatternHasNoNewline(k: nat)
    requires k < |FooterPatterns|
    ensures '\n' !in FooterPatterns[k]
  {
    assert k == 0 || k == 1 || k == 2 || k == 3 || k == 4 || k == 5;
  }

  /** A data row can never be taken for the start of a footer: each candidate
      test implies one of the sweep's patterns or a blank/missing cell. */
  lemma DataRowIsNoCandidate(r: Row)
    requires IsDataRow(r)
    ensures !IsFooterCandidate(Strip(FirstCell(r)))
  {
    var s := Strip(FirstCell(r));
    StrippedCellLacksPattern(r, 0);
    StrippedCellLacksPattern(r, 1);
    StrippedCellLacksPattern(r, 4);
    StrippedCellLacksPattern(r, 5);
    if StartsWith(s, "Found profiles count:") {
      StartsWithContains(s, "Found profiles count:");
    }
    assert InfixAt(s, s, 0);
  }

  /** Cleaning rows that are already clean changes nothing. */
  lemma CleanRowsIdempotent(rows: seq<Row>)
    ensures CleanRows(CleanRows(rows)) == CleanRows(rows)
  {
    var once := CleanRows(rows);
    CleanRowsSound(rows);
    forall k | 0 <= k < |once|
      ensures !IsFooterCandidate(Strip(FirstCell(once[k])))
    {
      DataRowIsNoCandidate(once[k]);
    }
    CleanRowsKeepsDataAboveFooter(once);
    assert FooterCut(once) == |once|;
    assert once[..|once|] == once;
    FilterKeepsAll(once, IsDataRow);
  }

  /** N data rows followed by a footer block clean to exactly those N rows. */
  lemma FooterBlockRemoved(data: seq<Row>, footer: seq<Row>)
    requires forall k :: 0 <= k < |data| ==> IsDataRow(data[k])
    requires |footer| > 0 && IsFooterCandidate(Strip(FirstCell(footer[0])))
    ensures CleanRows(data + footer) == data
  {
    var rows := data + footer;
    forall k | 0 <= k < |data|
      ensures !IsFooterCandidate(Strip(FirstCell(rows[k])))
    {
      assert rows[k] == data[k];
      DataRowIsNoCandidate(data[k]);
    }
    assert rows[|data|] == footer[0];
    CutAtFirstCandidate(rows, |data|);
    CleanRowsKeepsDataAboveFooter(rows);
    assert rows[..|data|] == data;
    FilterKeepsAll(data, IsDataRow);
  }

  /** The cut falls on the first candidate row. */
  lemma CutAtFirstCandidate(rows: seq<Row>, n: nat)
    requires n < |rows| && IsFooterCandidate(Strip(FirstCell(rows[n])))
    requires forall k :: 0 <= k < n ==> !IsFooterCandidate(Strip(FirstCell(rows[k])))
    ensures FooterCut(rows) == n
  {
  }

  /** Every row the row phase returns is a row of its input. */
  lemma CleanRowsFromInput(rows: seq<Row>)
    ensures forall i :: 0 <= i < |CleanRows(rows)| ==> CleanRows(rows)[i] in rows
  {
    CleanRowsKeepsDataAboveFooter(rows);
    var prefix := rows[..FooterCut(rows)];
    assert forall x :: x in prefix ==> x in rows;
  }

  // ---------------------------------------------------------------------
  // Column phase of `clean_csv`: drop, rename, complete, clear
  // ---------------------------------------------------------------------

  /** `columns_to_remove`: the columns dropped when present. */
  const DroppedColumns: set<string> := {"profileUrl", "avatarUrl", "isVerified", "followedByYou"}

  predicate IsKeptColumn(name: string) {
    name !in DroppedColumns
  }

  /** The cells of `row` that sit under a kept column, in order. */
  function ProjectRow(header: seq<string>, row: Row): (r: Row)
    requires |row| == |header|
    ensures |r| == |Filter(header, IsKeptColumn)|
    decreases |header|
  {
    if |header| == 0 then []
    else (if IsKeptColumn(header[0]) then [row[0]] else []) + ProjectRow(header[1..], row[1..])
  }

  /** `df.drop(columns=...)` of the dropped columns that are present: the
      remaining columns keep their order and their cells. */
  function DropColumns(t: Table): (r: Table)
    requires Rectangular(t)
    ensures Rectangular(r) && |r.rows| == |t.rows|
    ensures forall k :: 0 <= k < |r.header| ==> r.header[k] !in DroppedColumns
    ensures forall name :: name !in DroppedColumns ==> (name in r.header <==> name in t.header)
    ensures IsSubsequence(r.header, t.header)
  {
    FilterIsSubsequence(t.header, IsKeptColumn);
    Table(Filter(t.header, IsKeptColumn),
          seq(|t.rows|, i requires 0 <= i < |t.rows| => ProjectRow(t.header, t.rows[i])))
  }

  lemma {:induction false} ProjectRowKeepsValues(header: seq<string>, row: Row, name: string)
    requires |row| == |header|
    requires name !in DroppedColumns
    ensures Lookup(Filter(header, IsKeptColumn), ProjectRow(header, row), name) == Lookup(header, row, name)
    decreases |header|
  {
    if |header| > 0 {
      ProjectRowKeepsValues(header[1..], row[1..], name);
      var h := Filter(header, IsKeptColumn);
      var p := ProjectRow(header, row);
      if IsKeptColumn(header[0]) {
        assert h == [header[0]] + Filter(header[1..], IsKeptColumn);
        assert p == [row[0]] + ProjectRow(header[1..], row[1..]);
        assert h[0] == header[0] && h[1..] == Filter(header[1..], IsKeptColumn);
        assert p[0] == row[0] && p[1..] == ProjectRow(header[1..], row[1..]);
      } else {
        assert header[0] != name;
        assert p == ProjectRow(header[1..], row[1..]);
      }
    }
  }

  /** Dropping columns leaves the value of every other column of every row
      as it was. */
  lemma DropColumnsKeepsValues(t: Table, i: nat, name: string)
    requires Rectangular(t) && i < |t.rows|
    requires name !in DroppedColumns
    ensures Lookup(DropColumns(t).header, DropColumns(t).rows[i], name) == Lookup(t.header, t.rows[i], name)
  {
    ProjectRowKeepsValues(t.header, t.rows[i], name);
  }

  /** `column_rename_map`, the four-entry rename map. */
  function RenameColumn(name: string): string {
    if name == "userName" then "user_name"
    else if name == "fullName" then "full_name"
    else if name == "login" then "user_name"
    else if name == "name" then "full_name"
    else name
  }

  /** The names the rename map rewrites. */
  const RenameSources: set<string> := {"userName", "fullName", "login", "name"}

  /** `df.rename(columns=...)`: each header name is mapped on its own; cells
      do not move. Two columns may end up with the same name. */
  function RenameColumns(t: Table): (r: Table)
    ensures r.rows == t.rows && |r.header| == |t.header|
    ensures forall k :: 0 <= k < |t.header| ==>
      r.header[k] == (if t.header[k] in RenameSources then RenameColumn(t.header[k]) else t.header[k])
    ensures forall k :: 0 <= k < |r.header| ==> r.header[k] !in RenameSources
    ensures "user_name" in r.header <==>
      exists k :: 0 <= k < |t.header| && t.header[k] in {"userName", "login", "user_name"}
    ensures "full_name" in r.header <==>
      exists k :: 0 <= k < |t.header| && t.header[k] in {"fullName", "name", "full_name"}
  {
    Table(seq(|t.header|, k requires 0 <= k < |t.header| => RenameColumn(t.header[k])), t.rows)
  }

  /** `df[name] = ''`: a new last column holding the empty string. */
  function AddColumn(t: Table, name: string): (r: Table)
    requires Rectangular(t)
  {
    Table(t.header + [name], seq(|t.rows|, i requires 0 <= i < |t.rows| => t.rows[i] + [""]))
  }

  /** The "ensure the name columns exist" step: add `user_name`, then
      `full_name`, when missing. */
  function AddMissingNameColumns(t: Table): (r: Table)
    requires Rectangular(t)
    ensures Rectangular(r) && |r.rows| == |t.rows|
    ensures "user_name" in r.header && "full_name" in r.header
    ensures |t.header| <= |r.header| <= |t.header| + 2 && r.header[..|t.header|] == t.header
    ensures forall i :: 0 <= i < |r.rows| ==> r.rows[i][..|t.header|] == t.rows[i]
    ensures forall i, k :: 0 <= i < |r.rows| && |t.header| <= k < |r.header| ==> r.rows[i][k] == ""
    ensures forall k :: |t.header| <= k < |r.header| ==> r.header[k] in NameColumns
    ensures "user_name" in t.header && "full_name" in t.header ==> r == t
  {
    var withUser := if "user_name" in t.header then t else AddColumn(t, "user_name");
    var r := if "full_name" in withUser.header then withUser else AddColumn(withUser, "full_name");
    r
  }

  /** The header gains exactly the name columns it lacked, `user_name`
      before `full_name`, after all the old columns. */
  lemma AddMissingNameColumnsHeader(t: Table)
    requires Rectangular(t)
    ensures AddMissingNameColumns(t).header == t.header + MissingNameColumns(t.header)
    ensures |AddMissingNameColumns(t).header| == |t.header| + (if "user_name" in t.header then 0 else 1) + (if "full_name" in t.header then 0 else 1)
  {
  }

  /** The name columns a header lacks, in the order they are added. */
  function MissingNameColumns(header: seq<string>): (missing: seq<string>)
    ensures forall name :: name in missing <==> name in NameColumns && name !in header
    ensures |missing| == (if "user_name" in header then 0 else 1) + (if "full_name" in header then 0 else 1)
  {
    (if "user_name" in header then [] else ["user_name"]) + (if "full_name" in header then [] else ["full_name"])
  }

  /** The columns whose placeholder values are cleared. */
  const NameColumns: set<string> := {"user_name", "full_name"}

  /** `Series.replace(target, replacement)` on one value: whole values only. */
  function ReplaceValue(v: string, target: string, replacement: string): string {
    if v == target then replacement else v
  }

  /** The name-cell cleanup on one cell: `.replace('0', '').replace('nan', '')`. */
  function ClearNameCell(v: string): string {
    ReplaceValue(ReplaceValue(v, "0", ""), "nan", "")
  }

  /** The two chained replacements blank exactly the cells that are the
      whole text `"0"` or `"nan"`. */
  lemma ClearNameCellWholeValue(v: string)
    ensures ClearNameCell(v) == (if v == "0" || v == Missing then "" else v)
    ensures ClearNameCell(v) != "0" && ClearNameCell(v) != Missing
  {
  }

  function ClearNameRow(header: seq<string>, row: Row): Row
    requires |row| == |header|
  {
    seq(|row|, k requires 0 <= k < |row| => if header[k] in NameColumns then ClearNameCell(row[k]) else row[k])
  }

  /** No cell under a name column is `"0"` or missing. */
  predicate NameCellsCleared(t: Table)
    requires Rectangular(t)
  {
    forall i, k :: 0 <= i < |t.rows| && 0 <= k < |t.header| && t.header[k] in NameColumns ==>
      t.rows[i][k] != "0" && t.rows[i][k] != Missing
  }

  /** The name-cell cleanup on the table: every cell under a name column is cleared;
      the rest of the table is untouched. */
  function ClearNameCells(t: Table): (r: Table)
    requires Rectangular(t)
    ensures r.header == t.header && Rectangular(r) && |r.rows| == |t.rows|
    ensures forall i, k :: 0 <= i < |r.rows| && 0 <= k < |r.header| && r.header[k] in NameColumns ==>
      r.rows[i][k] == (if t.rows[i][k] == "0" || t.rows[i][k] == Missing then "" else t.rows[i][k])
    ensures forall i, k :: 0 <= i < |r.rows| && 0 <= k < |r.header| && r.header[k] !in NameColumns ==>
      r.rows[i][k] == t.rows[i][k]
    ensures NameCellsCleared(r)
  {
    Table(t.header, seq(|t.rows|, i requires 0 <= i < |t.rows| => ClearNameRow(t.header, t.rows[i])))
  }

  /** Renaming never produces the name of a dropped column. */
  lemma RenamedNamesAreKept(header: seq<string>)
    requires forall k :: 0 <= k < |header| ==> header[k] !in DroppedColumns
    ensures forall k :: 0 <= k < |header| ==> RenameColumn(header[k]) !in DroppedColumns
  {
    assert "user_name" !in DroppedColumns && "full_name" !in DroppedColumns;
  }

  /** The two name columns are neither dropped nor renamed. */
  lemma NameColumnsAreFinal()
    ensures forall n :: n in NameColumns ==> n !in DroppedColumns && n !in RenameSources
  {
  }

  /** The column phase of `clean_csv`: drop, rename, complete, clear. */
  function ColumnPhase(t: Table): (r: Table)
    requires Rectangular(t)
    ensures Rectangular(r) && |r.rows| == |t.rows|
    ensures "user_name" in r.header && "full_name" in r.header
    ensures forall k :: 0 <= k < |r.header| ==> r.header[k] !in DroppedColumns && r.header[k] !in RenameSources
    ensures NameCellsCleared(r)
  {
    var dropped := DropColumns(t);
    var renamed := RenameColumns(dropped);
    var completed := AddMissingNameColumns(renamed);
    RenamedHeaderIsFinal(dropped);
    CompletedHeaderIsFinal(renamed, completed);
    ClearNameCells(completed)
  }

  /** After the drop and the rename, no column name is one that either step
      would act on again. */
  lemma RenamedHeaderIsFinal(dropped: Table)
    requires forall k :: 0 <= k < |dropped.header| ==> dropped.header[k] !in DroppedColumns
    ensures forall k :: 0 <= k < |RenameColumns(dropped).header| ==>
      RenameColumns(dropped).header[k] !in DroppedColumns && RenameColumns(dropped).header[k] !in RenameSources
  {
    RenamedNamesAreKept(dropped.header);
  }

  /** Adding the name columns keeps the header free of dropped and renamed
      names. */
  lemma CompletedHeaderIsFinal(renamed: Table, completed: Table)
    requires forall k :: 0 <= k < |renamed.header| ==>
      renamed.header[k] !in DroppedColumns && renamed.header[k] !in RenameSources
    requires |renamed.header| <= |completed.header| && completed.header[..|renamed.header|] == renamed.header
    requires forall k :: |renamed.header| <= k < |completed.header| ==> completed.header[k] in NameColumns
    ensures forall k :: 0 <= k < |completed.header| ==>
      completed.header[k] !in DroppedColumns && completed.header[k] !in RenameSources
  {
    NameColumnsAreFinal();
    forall k | 0 <= k < |renamed.header|
      ensures completed.header[k] == renamed.header[k]
    {
      assert completed.header[..|renamed.header|][k] == completed.header[k];
    }
  }

  lemma {:induction false} ProjectRowOfKeptHeader(header: seq<string>, row: Row)
    requires |row| == |header|
    requires forall k :: 0 <= k < |header| ==> IsKeptColumn(header[k])
    ensures ProjectRow(header, row) == row
    decreases |header|
  {
    if |header| > 0 {
      ProjectRowOfKeptHeader(header[1..], row[1..]);
    }
  }

  lemma DropColumnsOfKeptHeader(t: Table)
    requires Rectangular(t)
    requires forall k :: 0 <= k < |t.header| ==> t.header[k] !in DroppedColumns
    ensures DropColumns(t) == t
  {
    FilterKeepsAll(t.header, IsKeptColumn);
    forall i | 0 <= i < |t.rows|
      ensures ProjectRow(t.header, t.rows[i]) == t.rows[i]
    {
      ProjectRowOfKeptHeader(t.header, t.rows[i]);
    }
  }

  lemma RenameColumnsOfRenamedHeader(t: Table)
    requires forall k :: 0 <= k < |t.header| ==> t.header[k] !in RenameSources
    ensures RenameColumns(t) == t
  {
    assert RenameColumns(t).header == t.header;
  }

  lemma ClearNameCellsOfClearedTable(t: Table)
    requires Rectangular(t)
    requires NameCellsCleared(t)
    ensures ClearNameCells(t) == t
  {
    var cleared := ClearNameCells(t);
    forall i | 0 <= i < |t.rows|
      ensures cleared.rows[i] == t.rows[i]
    {
      assert forall k :: 0 <= k < |t.header| ==> cleared.rows[i][k] == t.rows[i][k];
    }
  }

  /** Running the column steps on their own output changes nothing. */
  lemma ColumnPhaseIdempotent(t: Table)
    requires Rectangular(t)
    ensures ColumnPhase(ColumnPhase(t)) == ColumnPhase(t)
  {
    var u := ColumnPhase(t);
    DropColumnsOfKeptHeader(u);
    RenameColumnsOfRenamedHeader(DropColumns(u));
    assert RenameColumns(DropColumns(u)) == u;
    assert AddMissingNameColumns(u) == u;
    ClearNameCellsOfClearedTable(u);
  }

  // ---------------------------------------------------------------------
  // clean_csv
  // ---------------------------------------------------------------------

  /** `clean_csv` on the parsed table: the row phase, then the column phase.
      The separator `DetectSeparator` chose is returned to the caller
      unchanged and is not part of the table. */
  function CleanTable(t: Table): (r: Table)
    requires WellFormed(t)
    ensures WellFormed(r)
    ensures |r.rows| == |CleanRows(t.rows)| <= |t.rows|
    ensures "user_name" in r.header && "full_name" in r.header
    ensures forall k :: 0 <= k < |r.header| ==> r.header[k] !in DroppedColumns && r.header[k] !in RenameSources
  {
    CleanRowsFromInput(t.rows);
    CleanRowsKeepsDataAboveFooter(t.rows);
    assert forall x :: x in t.rows ==> |x| == |t.header|;
    var r := ColumnPhase(Table(t.header, CleanRows(t.rows)));
    assert "user_name" in r.header;
    r
  }
}
