/**
 * The decision procedure for one row of the query table. The browser's part
 * of a row is an input: what happened when the search page was loaded, what
 * the results summary and the alert banners said, and what the export step
 * left in the download directory.
 */
module Rows {
  import opened Wrappers
  import opened Cells
  import opened Numerals
  import opened Downloads

  // The terminal comments.
  const EmptyValues: string := "Empty values"
  const TooManyResults: string := "Too many results"
  const QuotedPhraseWarning: string := "Quoted phrase warning"
  const SearchWarningError: string := "Search/warning error"
  const Downloaded: string := "Downloaded"
  const DownloadError: string := "Download error"

  /** A count strictly above this cap skips the download. */
  const MaxResults: int := 1000

  /** The alert text that marks a quoted phrase the search service could not find. */
  const QuotedPhraseSignal: string := "Quoted phrase not found in"

  /** The comment vocabulary the loop writes. */
  predicate IsTerminal(c: Cell) {
    c in {Text(EmptyValues), Text(TooManyResults), Text(QuotedPhraseWarning),
          Text(SearchWarningError), Text(Downloaded), Text(DownloadError)}
  }

  /** What the export step produced: a failure, or the download directory's listing. */
  datatype DownloadOutcome = ExportFailed | Listing(files: seq<FileEntry>)

  /**
   * What the browser did for one row: loading the search page failed (this
   * happens outside the row's error handling); the search failed before the
   * results summary could be read; the summary was read but reading the
   * alert banners failed before a quoted-phrase alert was seen; or the page
   * showed a summary and alerts and the export step had the given outcome.
   */
  datatype PageOutcome =
    | NavigationFailed
    | SearchFailed
    | AlertsFailed(summary: string)
    | Page(summary: string, alerts: seq<string>, download: DownloadOutcome)

  /** The results summary was read. */
  predicate ShowsSummary(outcome: PageOutcome) {
    outcome.AlertsFailed? || outcome.Page?
  }

  /** `needle` occurs in `text` starting at position `i`. */
  predicate OccursAt(text: string, needle: string, i: int) {
    0 <= i && i + |needle| <= |text| && text[i..i + |needle|] == needle
  }

  /** The substring test `needle in text`. */
  function Contains(text: string, needle: string): (b: bool)
    ensures b <==> exists i :: OccursAt(text, needle, i)
    decreases |text|
  {
    if |needle| <= |text| && text[..|needle|] == needle then
      assert OccursAt(text, needle, 0);
      true
    else if text == [] then false
    else
      LemmaOccursAfterFirst(text, needle);
      Contains(text[1..], needle)
  }

  /** Where `needle` does not start `text`, its occurrences are those in the rest of `text`. */
  lemma LemmaOccursAfterFirst(text: string, needle: string)
    requires text != [] && !OccursAt(text, needle, 0)
    ensures (exists i :: OccursAt(text, needle, i)) <==> (exists i :: OccursAt(text[1..], needle, i))
  {
    forall i | OccursAt(text, needle, i)
      ensures OccursAt(text[1..], needle, i - 1)
    {
      assert text[1..][i - 1..i - 1 + |needle|] == text[i..i + |needle|];
    }
    forall i | OccursAt(text[1..], needle, i)
      ensures OccursAt(text, needle, i + 1)
    {
      assert text[1..][i..i + |needle|] == text[i + 1..i + 1 + |needle|];
    }
  }

  /** Some alert banner reports a quoted phrase that was not found. */
  predicate HasQuotedWarning(alerts: seq<string>) {
    exists j :: 0 <= j < |alerts| && Contains(alerts[j], QuotedPhraseSignal)
  }

  /** The scan over the alert banners, which stops at the first quoted-phrase alert. */
  method ScanAlerts(alerts: seq<string>) returns (found: bool)
    ensures found <==> HasQuotedWarning(alerts)
  {
    found := false;
    var j := 0;
    while j < |alerts| && !found
      invariant 0 <= j <= |alerts|
      invariant !found ==> forall k :: 0 <= k < j ==> !Contains(alerts[k], QuotedPhraseSignal)
      invariant found ==> 0 < j && Contains(alerts[j - 1], QuotedPhraseSignal)
    {
      if Contains(alerts[j], QuotedPhraseSignal) {
        found := true;
      }
      j := j + 1;
    }
  }

  /**
   * The search-error handler: a row that already carries a comment keeps it,
   * any other row is marked as a search/warning error. (Corrected: a blank
   * cell counts as carrying no comment.)
   */
  function AfterSearchError(comment: Cell): (r: Cell)
    ensures HasComment(r)
    ensures HasComment(comment) ==> r == comment
    ensures !HasComment(comment) ==> r == Text(SearchWarningError)
  {
    if HasComment(comment) then comment else Text(SearchWarningError)
  }

  /** The handler as the source writes it: it keeps every truthy value, NaN included. */
  function AfterSearchErrorAsWritten(comment: Cell): (r: Cell)
    ensures Truthy(comment) ==> r == comment
    ensures !Truthy(comment) ==> r == Text(SearchWarningError)
  {
    if Truthy(comment) then comment else Text(SearchWarningError)
  }

  /**
   * As written, a row whose comment cell is blank (an existing Comment column
   * with an empty cell) and whose search fails ends with no comment at all.
   */
  lemma LemmaBlankCommentKeptAsWritten()
    ensures AfterSearchErrorAsWritten(Missing) == Missing
    ensures !HasComment(AfterSearchErrorAsWritten(Missing)) && !IsTerminal(AfterSearchErrorAsWritten(Missing))
    ensures AfterSearchError(Missing) == Text(SearchWarningError)
  {
  }

  /** The two handlers agree on every cell except a blank one. */
  lemma LemmaHandlersAgreeOffBlank(comment: Cell)
    ensures AfterSearchError(comment) == AfterSearchErrorAsWritten(comment) <==> !comment.Missing?
  {
  }

  /** What processing does to one row: its new comment, the count it stores, the rename. */
  datatype RowEffect = RowEffect(comment: Cell, count: Option<int>, move: Option<Move>)

  /** The query or the file name is missing: the row is skipped. */
  predicate Skipped(query: Cell, fileName: Cell)
    ensures Skipped(query, fileName) <==> query == Missing || fileName == Missing
  {
    IsMissing(query) || IsMissing(fileName)
  }

  /** The row's search raised before a count was read: no summary, or one whose count does not parse. */
  predicate SearchBroke(outcome: PageOutcome) {
    outcome.SearchFailed? || (ShowsSummary(outcome) && ParseCount(outcome.summary).None?)
  }

  /**
   * The effect of processing one row whose query, file name and comment
   * cells hold the given values.
   */
  function Effect(query: Cell, fileName: Cell, comment: Cell, outcome: PageOutcome): (e: RowEffect)
    // A skipped row gets "Empty values" and nothing else happens to it.
    ensures Skipped(query, fileName) ==> e == RowEffect(Text(EmptyValues), None, None)
    // A page that does not load leaves the row as it was.
    ensures !Skipped(query, fileName) && outcome.NavigationFailed? ==> e == RowEffect(comment, None, None)
    // A search that fails before a count is read stores none; the handler keeps an existing comment.
    ensures !Skipped(query, fileName) && SearchBroke(outcome) ==>
      e == RowEffect(AfterSearchError(comment), None, None)
    // A parsed count is stored whatever follows, a later failure included.
    ensures !Skipped(query, fileName) && ShowsSummary(outcome) && ParseCount(outcome.summary).Some? ==>
      e.count == ParseCount(outcome.summary)
    ensures e.count.Some? ==> !Skipped(query, fileName) && ShowsSummary(outcome) && e.count == ParseCount(outcome.summary)
    // Above the cap: no export, and the alerts are never read.
    ensures e.count.Some? && e.count.value > MaxResults ==> e.comment == Text(TooManyResults) && e.move.None?
    // Reading the alerts fails: the count stays stored and the handler runs.
    ensures e.count.Some? && e.count.value <= MaxResults && outcome.AlertsFailed? ==>
      e.comment == AfterSearchError(comment) && e.move.None?
    // A quoted-phrase alert: no export.
    ensures e.count.Some? && e.count.value <= MaxResults && outcome.Page? && HasQuotedWarning(outcome.alerts) ==>
      e.comment == Text(QuotedPhraseWarning) && e.move.None?
    // Export: the rename happens exactly when the row is marked "Downloaded".
    ensures e.count.Some? && e.count.value <= MaxResults && outcome.Page? && !HasQuotedWarning(outcome.alerts) ==>
      && (e.move.Some? <==> e.comment == Text(Downloaded))
      && (e.move.None? ==> e.comment == Text(DownloadError))
      && e.move == (if outcome.download.ExportFailed? then None
                    else ChooseDownload(outcome.download.files, Render(fileName)))
    ensures e.move.Some? ==>
      e.comment == Text(Downloaded) && e.count.Some? && e.count.value <= MaxResults &&
      outcome.Page? && outcome.download.Listing? && !HasQuotedWarning(outcome.alerts)
    // Every row the loop finishes carries a comment: a terminal one or the one it had.
    ensures !outcome.NavigationFailed? || Skipped(query, fileName) ==>
      HasComment(e.comment) && (IsTerminal(e.comment) || e.comment == comment)
  {
    if Skipped(query, fileName) then RowEffect(Text(EmptyValues), None, None)
    else if outcome.NavigationFailed? then RowEffect(comment, None, None)
    else if outcome.SearchFailed? then RowEffect(AfterSearchError(comment), None, None)
    else
      match ParseCount(outcome.summary)
      case None => RowEffect(AfterSearchError(comment), None, None)
      case Some(n) =>
        if n > MaxResults then RowEffect(Text(TooManyResults), Some(n), None)
        else if outcome.AlertsFailed? then RowEffect(AfterSearchError(comment), Some(n), None)
        else if HasQuotedWarning(outcome.alerts) then RowEffect(Text(QuotedPhraseWarning), Some(n), None)
        else
          match outcome.download
          case ExportFailed => RowEffect(Text(DownloadError), Some(n), None)
          case Listing(files) =>
            var move := ChooseDownload(files, Render(fileName));
            RowEffect(if move.Some? then Text(Downloaded) else Text(DownloadError), Some(n), move)
  }
}
