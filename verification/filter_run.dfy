/** `filter_instagram_data` (filter_instagram.py): the CSV rows of the cleaned
    file are read as dictionaries keyed by the header (`csv.DictReader`), each
    profile is classified, and the kept rows are written back under the same
    header (`csv.DictWriter`) while two counters track the run. The text of
    the file is given already split into rows of cells. */
module FilterRun {
  import opened Collections
  import opened Classifier

  /** One row as `csv.DictReader` returns it. A header name is mapped to its
      cell, or to None when the line was too short to reach that column;
      cells beyond the header are kept apart (`csv.DictReader` files them
      under the `None` key). */
  datatype Record = Record(fields: map<string, Option<string>>, rest: seq<string>)

  /** Index `i` is the last place `names[i]` occurs in `names`. */
  predicate LastOccurrence(names: seq<string>, i: nat)
    requires i < |names|
  {
    forall j :: i < j < |names| ==> names[j] != names[i]
  }

  /** Dropping the tail of the header keeps the last occurrences that lie
      before it, and the names of the prefix are names of the header. */
  lemma LastOccurrenceInPrefix(names: seq<string>, n: nat)
    requires n <= |names|
    ensures forall k :: k in names <==> k in names[..n] || k in names[n..]
    ensures forall i :: 0 <= i < n && LastOccurrence(names, i) ==>
      LastOccurrence(names[..n], i) && names[i] !in names[n..]
  {
    assert names == names[..n] + names[n..];
  }

  /** `dict(zip(names, values))` for equally long sequences: a later
      duplicate name overwrites an earlier one. */
  function ZipFields(names: seq<string>, values: seq<string>): map<string, Option<string>>
    requires |names| == |values|
    decreases |names|
  {
    if |names| == 0 then map[]
    else
      var n := |names| - 1;
      ZipFields(names[..n], values[..n])[names[n] := Some(values[n])]
  }

  /** The keys of the zipped row are the names, and each name holds the
      value at its last occurrence. */
  lemma ZipFieldsSpec(names: seq<string>, values: seq<string>)
    requires |names| == |values|
    ensures forall k :: k in ZipFields(names, values) <==> k in names
    ensures forall i :: 0 <= i < |names| && LastOccurrence(names, i) ==>
      ZipFields(names, values)[names[i]] == Some(values[i])
  {
    ZipFieldsKeys(names, values);
    forall i | 0 <= i < |names| && LastOccurrence(names, i)
      ensures ZipFields(names, values)[names[i]] == Some(values[i])
    {
      ZipFieldsValue(names, values, i);
    }
  }

  lemma {:induction false} ZipFieldsKeys(names: seq<string>, values: seq<string>)
    requires |names| == |values|
    ensures forall k :: k in ZipFields(names, values) <==> k in names
    decreases |names|
  {
    if |names| > 0 {
      var n := |names| - 1;
      ZipFieldsKeys(names[..n], values[..n]);
      assert names == names[..n] + [names[n]];
    }
  }

  lemma {:induction false} ZipFieldsValue(names: seq<string>, values: seq<string>, i: nat)
    requires |names| == |values| && i < |names| && LastOccurrence(names, i)
    ensures names[i] in ZipFields(names, values) && ZipFields(names, values)[names[i]] == Some(values[i])
    decreases |names|
  {
    var n := |names| - 1;
    if i < n {
      assert names[..n][i] == names[i] && values[..n][i] == values[i];
      assert LastOccurrence(names[..n], i);
      ZipFieldsValue(names[..n], values[..n], i);
      assert names[i] != names[n];
    }
  }

  /** `for key in names: d[key] = None`: the columns a short line does not
      reach get the reader's `restval`. */
  function FillMissing(d: map<string, Option<string>>, names: seq<string>): (r: map<string, Option<string>>)
    ensures forall k :: k in r <==> k in d || k in names
    ensures forall k :: k in names ==> r[k] == None
    ensures forall k :: k in d && k !in names ==> r[k] == d[k]
    decreases |names|
  {
    if |names| == 0 then d
    else FillMissing(d[names[0] := None], names[1..])
  }

  /** `csv.DictReader` turning one line into a row. Every header name
      becomes a key; its value is the cell under its last occurrence in the
      header, or None when the line stops before that column; cells past the
      header are set aside. */
  function ToRecord(fieldnames: seq<string>, values: seq<string>): (rec: Record)
    ensures forall k :: k in rec.fields <==> k in fieldnames
    ensures forall i :: 0 <= i < |fieldnames| && LastOccurrence(fieldnames, i) ==>
      rec.fields[fieldnames[i]] == (if i < |values| then Some(values[i]) else None)
    ensures |rec.rest| == if |values| > |fieldnames| then |values| - |fieldnames| else 0
    ensures forall k :: 0 <= k < |rec.rest| ==> rec.rest[k] == values[|fieldnames| + k]
  {
    if |fieldnames| < |values| then
      var n := |fieldnames|;
      ZipFieldsSpec(fieldnames, values[..n]);
      Record(ZipFields(fieldnames, values[..n]), values[n..])
    else
      var n := |values|;
      var d := ZipFields(fieldnames[..n], values);
      ZipFieldsSpec(fieldnames[..n], values);
      LastOccurrenceInPrefix(fieldnames, n);
      assert forall i :: n <= i < |fieldnames| ==> fieldnames[i] == fieldnames[n..][i - n];
      Record(FillMissing(d, fieldnames[n..]), [])
  }

  /** A line `csv.reader` returns with at least one cell; blank lines come
      back empty and `DictReader` skips them. */
  predicate IsDataLine(line: seq<string>) {
    |line| > 0
  }

  /** The rows `DictReader` yields for the lines after the header. */
  function Records(fieldnames: seq<string>, lines: seq<seq<string>>): (recs: seq<Record>)
    ensures |recs| == |Filter(lines, IsDataLine)|
    ensures forall i :: 0 <= i < |recs| ==> recs[i] == ToRecord(fieldnames, Filter(lines, IsDataLine)[i])
  {
    var data := Filter(lines, IsDataLine);
    seq(|data|, i requires 0 <= i < |data| => ToRecord(fieldnames, data[i]))
  }

  /** `row.get(name, "")` as it is then formatted into the classifier's
      f-string: a missing column gives "", a cell the line did not reach
      (None) gives "None". */
  function Field(rec: Record, name: string): string {
    if name !in rec.fields then ""
    else match rec.fields[name]
      case Some(v) => v
      case None => "None"
  }

  /** The classifier keeps this row. */
  predicate IsKept(rec: Record, lists: WordLists) {
    Classify(Field(rec, "user_name"), Field(rec, "full_name"), lists) == Keep
  }

  function KeptBy(lists: WordLists): Record -> bool {
    rec => IsKept(rec, lists)
  }

  function RemovedBy(lists: WordLists): Record -> bool {
    rec => !IsKept(rec, lists)
  }

  /** `DictWriter.writerow`'s line for a row: the value of each header name
      in header order, with None written as the empty string. */
  function OutputRow(fieldnames: seq<string>, rec: Record): (line: seq<string>)
    ensures |line| == |fieldnames|
  {
    seq(|fieldnames|, i requires 0 <= i < |fieldnames| =>
      if fieldnames[i] in rec.fields && rec.fields[fieldnames[i]].Some? then rec.fields[fieldnames[i]].value else "")
  }

  function OutputRows(fieldnames: seq<string>, recs: seq<Record>): (lines: seq<seq<string>>)
    ensures |lines| == |recs|
  {
    seq(|recs|, i requires 0 <= i < |recs| => OutputRow(fieldnames, recs[i]))
  }

  /** How a run ends: no header (nothing is written), a write error part way
      (the row at `failedAt` had more cells than the header, so `writerow`
      raised and the run stopped), or completion with its two counters. */
  datatype Report =
    | NoHeaders
    | WriteFailed(failedAt: nat)
    | Completed(total: nat, removed: nat)
  {
    /** The "Remaining profiles" figure of the summary. */
    function Remaining(): int
      requires Completed?
    {
      total - removed
    }
  }

  /** What a run that got past the header leaves behind, for the rows `recs`
      and the verdict `kept`: the header comes first; a completed run counted
      every row, removed the rows `kept` rejects and wrote the others in
      order, none of which had cells beyond the header; a failed run stopped
      at the first kept row with such cells, having written the kept rows
      before it. */
  predicate RunOutcome(fieldnames: seq<string>, recs: seq<Record>, kept: Record -> bool,
                       written: seq<seq<string>>, report: Report)
  {
    && !report.NoHeaders?
    && |written| >= 1 && written[0] == fieldnames
    && (report.Completed? ==>
      && report.total == |recs|
      && report.removed == |recs| - |Filter(recs, kept)|
      && written[1..] == OutputRows(fieldnames, Filter(recs, kept))
      && forall k :: 0 <= k < |recs| && kept(recs[k]) ==> |recs[k].rest| == 0)
    && (report.WriteFailed? ==>
      && report.failedAt < |recs|
      && kept(recs[report.failedAt]) && |recs[report.failedAt].rest| > 0
      && (forall k :: 0 <= k < report.failedAt && kept(recs[k]) ==> |recs[k].rest| == 0)
      && written[1..] == OutputRows(fieldnames, Filter(recs[..report.failedAt], kept)))
  }

  /** The row loop of `filter_instagram_data`, for a header and the rows read
      under it, with the classifier's verdict as `kept`. The header is written
      first; then every row is counted, and a kept row is written unless it
      has cells beyond the header, which stops the run. */
  method FilterRecords(fieldnames: seq<string>, recs: seq<Record>, kept: Record -> bool)
    returns (written: seq<seq<string>>, report: Report)
    ensures RunOutcome(fieldnames, recs, kept, written, report)
  {
    written := [fieldnames];
    var total, removed := 0, 0;
    var i := 0;
    while i < |recs|
      invariant 0 <= i <= |recs|
      invariant total == i
      invariant removed == i - |Filter(recs[..i], kept)|
      invariant |written| >= 1 && written[0] == fieldnames
      invariant written[1..] == OutputRows(fieldnames, Filter(recs[..i], kept))
      invariant forall k :: 0 <= k < i && kept(recs[k]) ==> |recs[k].rest| == 0
    {
      var rec := recs[i];
      total := total + 1;
      FilterSnoc(recs, i, kept);
      if !kept(rec) {
        removed := removed + 1;
      } else {
        if |rec.rest| > 0 {
          return written, WriteFailed(i);
        }
        OutputRowsAppend(fieldnames, Filter(recs[..i], kept), rec);
        written := written + [OutputRow(fieldnames, rec)];
      }
      i := i + 1;
    }
    assert recs[..i] == recs;
    report := Completed(total, removed);
  }

  /** `filter_instagram_data` on the rows of the input file, header first. A
      missing header writes nothing. Otherwise the rows are read under the
      header and filtered by the classifier; in a completed run the removed
      profiles are exactly those classified female and the summary's figures
      add up. */
  method FilterInstagramData(lines: seq<seq<string>>, lists: WordLists) returns (written: seq<seq<string>>, report: Report)
    ensures report.NoHeaders? <==> |lines| == 0 || |lines[0]| == 0
    ensures report.NoHeaders? ==> written == []
    ensures !report.NoHeaders? ==> RunOutcome(lines[0], Records(lines[0], lines[1..]), KeptBy(lists), written, report)
    ensures report.Completed? ==>
      && report.removed == |Filter(Records(lines[0], lines[1..]), RemovedBy(lists))|
      && report.Remaining() == |written| - 1 >= 0
  {
    if |lines| == 0 || |lines[0]| == 0 {
      return [], NoHeaders;
    }
    var recs := Records(lines[0], lines[1..]);
    written, report := FilterRecords(lines[0], recs, KeptBy(lists));
    FilterPartition(recs, KeptBy(lists), RemovedBy(lists));
  }

  /** No header name occurs twice. */
  predicate Distinct(names: seq<string>) {
    forall i, j :: 0 <= i < j < |names| ==> names[i] != names[j]
  }

  /** A line as `DictWriter` writes it back under a header of `width`
      names: the cells it had, then `""` (the writer's `restval`) for every
      column the line did not reach. */
  function Padded(line: seq<string>, width: nat): (r: seq<string>)
    requires |line| <= width
    ensures |r| == width && r[..|line|] == line
    ensures forall k :: |line| <= k < width ==> r[k] == ""
  {
    line + seq(width - |line|, _ => "")
  }

  /** Reading a line under a header without duplicates and writing the row
      back gives the line padded to the header's width. */
  lemma OutputRowOfRecord(fieldnames: seq<string>, values: seq<string>)
    requires Distinct(fieldnames) && |values| <= |fieldnames|
    ensures OutputRow(fieldnames, ToRecord(fieldnames, values)) == Padded(values, |fieldnames|)
  {
    var line := OutputRow(fieldnames, ToRecord(fieldnames, values));
    forall i | 0 <= i < |fieldnames|
      ensures line[i] == Padded(values, |fieldnames|)[i]
    {
      assert LastOccurrence(fieldnames, i);
    }
  }

  /** With a repeated header name, the row holds the cell under the name's
      last column, and the writer puts that cell under both columns. */
  lemma DuplicateHeaderLastWins()
    ensures OutputRow(["a", "a"], ToRecord(["a", "a"], ["1", "2"])) == ["2", "2"]
  {
    assert LastOccurrence(["a", "a"], 1);
  }

  /** The reader handles the lines one at a time: reading two stretches of
      lines is reading each and putting the rows together. */
  lemma RecordsAppend(fieldnames: seq<string>, a: seq<seq<string>>, b: seq<seq<string>>)
    ensures Records(fieldnames, a + b) == Records(fieldnames, a) + Records(fieldnames, b)
  {
    FilterAppend(a, b, IsDataLine);
  }

  /** A blank line yields no row. */
  lemma BlankLineIsSkipped(fieldnames: seq<string>, a: seq<seq<string>>, b: seq<seq<string>>)
    ensures Records(fieldnames, a + [[]] + b) == Records(fieldnames, a + b)
  {
    FilterSkipsRejected(a, [], b, IsDataLine);
    RecordsOfSameData(fieldnames, a + [[]] + b, a + b);
  }

  /** The rows depend only on the non-blank lines. */
  lemma RecordsOfSameData(fieldnames: seq<string>, x: seq<seq<string>>, y: seq<seq<string>>)
    requires Filter(x, IsDataLine) == Filter(y, IsDataLine)
    ensures Records(fieldnames, x) == Records(fieldnames, y)
  {
  }

  /** The `DictReader`/`DictWriter` round trip: under a header without
      duplicates, the rows read from lines no wider than the header are
      written back as the non-blank lines, in order, each padded to the
      header's width. */
  lemma ReadWriteRoundTrip(fieldnames: seq<string>, lines: seq<seq<string>>)
    requires Distinct(fieldnames)
    requires forall k :: 0 <= k < |lines| ==> |lines[k]| <= |fieldnames|
    ensures |OutputRows(fieldnames, Records(fieldnames, lines))| == |Filter(lines, IsDataLine)|
    ensures forall k :: 0 <= k < |Filter(lines, IsDataLine)| ==>
      |Filter(lines, IsDataLine)[k]| <= |fieldnames| &&
      OutputRows(fieldnames, Records(fieldnames, lines))[k] == Padded(Filter(lines, IsDataLine)[k], |fieldnames|)
  {
    var data := Filter(lines, IsDataLine);
    forall k | 0 <= k < |data|
      ensures |data[k]| <= |fieldnames|
      ensures OutputRows(fieldnames, Records(fieldnames, lines))[k] == Padded(data[k], |fieldnames|)
    {
      assert data[k] in lines;
      OutputRowOfRecord(fieldnames, data[k]);
    }
  }

  lemma OutputRowsAppend(fieldnames: seq<string>, recs: seq<Record>, rec: Record)
    ensures OutputRows(fieldnames, recs + [rec]) == OutputRows(fieldnames, recs) + [OutputRow(fieldnames, rec)]
  {
  }

  /** A column the header does not have reads as the empty string. */
  lemma MissingColumnReadsEmpty(fieldnames: seq<string>, values: seq<string>, name: string)
    requires name !in fieldnames
    ensures Field(ToRecord(fieldnames, values), name) == ""
  {
  }

  /** A column a short line does not reach reads as "None", the text of the
      reader's `restval` in the f-string. */
  lemma ShortLineReadsNone(fieldnames: seq<string>, values: seq<string>, i: nat)
    requires i < |fieldnames| && LastOccurrence(fieldnames, i) && |values| <= i
    ensures Field(ToRecord(fieldnames, values), fieldnames[i]) == "None"
  {
  }

  /** Every written line has one cell per header name. */
  lemma WrittenLinesFitHeader(fieldnames: seq<string>, recs: seq<Record>, kept: Record -> bool,
                              written: seq<seq<string>>, report: Report)
    requires RunOutcome(fieldnames, recs, kept, written, report)
    ensures forall k :: 0 <= k < |written| ==> |written[k]| == |fieldnames|
  {
    if report.Completed? || report.WriteFailed? {
      assert forall k :: 1 <= k < |written| ==> written[k] == written[1..][k - 1];
    }
  }
}
