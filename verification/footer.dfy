/** Detection of the summary/branding block an export tool appends after the
    data rows (`find_footer_start`, clean_data.py). The detector only looks
    at the first column, so it is modelled over that column's cells as
    `str()` renders them. */
module CsvFooter {
  import opened Collections
  import opened PyStrings

  /** The case-sensitive test that makes a row a footer candidate, applied to
      the stripped first cell. `""` and `"nan"` are what an empty or missing
      cell looks like after `str()`. */
  predicate IsFooterCandidate(cell: string) {
    || StartsWith(cell, "Found profiles count:")
    || cell == "IG DM BOT:"
    || Contains(cell, "profiles max on free plan")
    || Contains(cell, "max on free plan")
    || cell == ""
    || cell == "nan"
  }

  /** The test each row of the confirmation window is put to: the candidate
      test again, or a mention of the vendor's site in any letter case. */
  predicate ConfirmsFooter(cell: string) {
    || StartsWith(cell, "Found profiles count:")
    || cell == "IG DM BOT:"
    || Contains(cell, "profiles max on free plan")
    || Contains(cell, "max on free plan")
    || cell in ["", "nan"]
    || Contains(Lower(cell), "socialdeck.ai")
  }

  /** The window test is weaker than the candidate test. */
  lemma CandidateConfirms(cell: string)
    requires IsFooterCandidate(cell)
    ensures ConfirmsFooter(cell)
  {
  }

  /** Some row among `i .. min(i + 5, n) - 1` passes the window test. */
  predicate WindowConfirms(firstColumn: seq<string>, i: nat) {
    exists j :: i <= j < Min(i + 5, |firstColumn|) && ConfirmsFooter(Strip(firstColumn[j]))
  }

  /** The outer loop's test for row `i`: the row is a candidate AND some
      row of its window confirms it. */
  predicate StopsAt(firstColumn: seq<string>, i: nat) {
    i < |firstColumn| && IsFooterCandidate(Strip(firstColumn[i])) && WindowConfirms(firstColumn, i)
  }

  /** Because the window starts at the candidate itself, the outer loop stops
      at a row exactly when the row is a candidate. */
  lemma StopsAtCandidate(firstColumn: seq<string>, i: nat)
    requires i < |firstColumn|
    ensures StopsAt(firstColumn, i) <==> IsFooterCandidate(Strip(firstColumn[i]))
  {
    var cell := Strip(firstColumn[i]);
    if IsFooterCandidate(cell) {
      CandidateConfirms(cell);
      assert i <= i < Min(i + 5, |firstColumn|);
    }
  }

  /** `find_footer_start`: the first row at which the outer loop stops, or
      None. It is the index of the first row whose stripped first cell is a
      footer candidate, or None when there is no such row. */
  function FindFooterStart(firstColumn: seq<string>): (r: Option<nat>)
    ensures r.None? <==> forall k :: 0 <= k < |firstColumn| ==> !IsFooterCandidate(Strip(firstColumn[k]))
    ensures r.Some? ==> r.value < |firstColumn| && IsFooterCandidate(Strip(firstColumn[r.value]))
    ensures r.Some? ==> forall k :: 0 <= k < r.value ==> !IsFooterCandidate(Strip(firstColumn[k]))
  {
    var r := FirstHit(|firstColumn|, StopTest(firstColumn), 0);
    FirstHitIsFirstCandidate(firstColumn, r);
    r
  }

  /** `StopsAt` as a test on row indices. */
  function StopTest(firstColumn: seq<string>): nat -> bool {
    (k: nat) => StopsAt(firstColumn, k)
  }

  lemma FirstHitIsFirstCandidate(firstColumn: seq<string>, r: Option<nat>)
    requires r == FirstHit(|firstColumn|, StopTest(firstColumn), 0)
    ensures r.None? <==> forall k :: 0 <= k < |firstColumn| ==> !IsFooterCandidate(Strip(firstColumn[k]))
    ensures r.Some? ==> r.value < |firstColumn| && IsFooterCandidate(Strip(firstColumn[r.value]))
    ensures r.Some? ==> forall k :: 0 <= k < r.value ==> !IsFooterCandidate(Strip(firstColumn[k]))
  {
    var hit := StopTest(firstColumn);
    if r.Some? {
      assert hit(r.value);
      StopsAtCandidate(firstColumn, r.value);
      forall k | 0 <= k < r.value
        ensures !IsFooterCandidate(Strip(firstColumn[k]))
      {
        assert !hit(k);
        StopsAtCandidate(firstColumn, k);
      }
    } else {
      forall k | 0 <= k < |firstColumn|
        ensures !IsFooterCandidate(Strip(firstColumn[k]))
      {
        assert !hit(k);
        StopsAtCandidate(firstColumn, k);
      }
    }
  }
}
