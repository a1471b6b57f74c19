/**
 * Worked rows, derived from the general row contract: the cap boundary, a
 * 250-result search that downloads, the same search when reading its alert
 * banners fails, and a 5,432-result search that is over the cap.
 */
module Scenarios {
  import opened Wrappers
  import opened Cells
  import opened Numerals
  import opened Downloads
  import opened Rows

  /** A summary of exactly "1,000 results" still goes on to the warning check and the export. */
  lemma LemmaCapIsInclusive(query: Cell, fileName: Cell, comment: Cell, alerts: seq<string>, download: DownloadOutcome)
    requires !Skipped(query, fileName)
    ensures var e := Effect(query, fileName, comment, Page("1,000 results", alerts, download));
      e.count == Some(MaxResults) && e.comment != Text(TooManyResults)
  {
    LemmaParseSummary1000();
  }

  /**
   * A row with query "diabetes AND insulin" and file name "diab_ins", whose
   * summary reads "250 results", that shows no alert and whose export leaves
   * one matching file, stores 250, is marked "Downloaded" and renames that
   * file to "diab_ins" + ".txt".
   */
  lemma LemmaScenarioDownloaded(download: FileEntry)
    requires MatchesExportPattern(download.name)
    ensures Effect(Text("diabetes AND insulin"), Text("diab_ins"), Text(""),
                   Page("250 results", [], Listing([download])))
         == RowEffect(Text(Downloaded), Some(250), Some(Move(download.name, TargetName("diab_ins"))))
  {
    LemmaParseSummary250();
    LemmaSingleDownload(download, "diab_ins");
    var e := Effect(Text("diabetes AND insulin"), Text("diab_ins"), Text(""), Page("250 results", [], Listing([download])));
    assert !HasQuotedWarning([]);
    assert e.count == Some(250);
    assert e.move == Some(Move(download.name, TargetName("diab_ins")));
    assert e.comment == Text(Downloaded);
  }

  /**
   * The same row when its summary reads "250 results" but reading the alert
   * banners then fails: 250 is stored, and the handler marks the row as a
   * search/warning error.
   */
  lemma LemmaScenarioAlertsFailed()
    ensures Effect(Text("diabetes AND insulin"), Text("diab_ins"), Text(""), AlertsFailed("250 results"))
         == RowEffect(Text(SearchWarningError), Some(250), None)
  {
    LemmaParseSummary250();
  }

  /** The same row with the summary "5,432 results" stores 5432 and downloads nothing. */
  lemma LemmaScenarioTooMany(alerts: seq<string>, download: DownloadOutcome)
    ensures Effect(Text("diabetes AND insulin"), Text("diab_ins"), Text(""),
                   Page("5,432 results", alerts, download))
         == RowEffect(Text(TooManyResults), Some(5432), None)
  {
    LemmaParseSummary5432();
  }
}
