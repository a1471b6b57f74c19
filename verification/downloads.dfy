/**
 * The download-outcome rule: among the files in the download directory whose
 * names match the browser's export pattern "pubmed-*.*", the newest one (by
 * ctime, as os.path.getctime reports it) is renamed to the row's target name.
 */
module Downloads {
  import opened Wrappers

  /** A directory entry: its name and its ctime. */
  datatype FileEntry = FileEntry(name: string, ctime: int)

  /** A rename from the downloaded file to the target name, each joined to the download directory's path. */
  datatype Move = Move(source: string, target: string)

  const Prefix: string := "pubmed-"

  /**
   * The glob "pubmed-*.*": the name starts with "pubmed-" and a dot occurs
   * somewhere after that prefix.
   */
  predicate MatchesExportPattern(name: string) {
    |name| >= |Prefix| && name[..|Prefix|] == Prefix && '.' in name[|Prefix|..]
  }

  /** The listing filtered to the entries the glob returns, in listing order. */
  function Matching(listing: seq<FileEntry>): (r: seq<FileEntry>)
    ensures |r| <= |listing|
    ensures forall e :: e in r <==> e in listing && MatchesExportPattern(e.name)
  {
    if listing == [] then []
    else
      var rest := Matching(listing[1..]);
      assert listing == [listing[0]] + listing[1..];
      if MatchesExportPattern(listing[0].name) then [listing[0]] + rest else rest
  }

  /**
   * The position max(files, key=ctime) picks: a file of greatest ctime, the
   * first one in listing order when several share it.
   */
  function NewestIndex(files: seq<FileEntry>): (k: nat)
    requires files != []
    ensures k < |files|
    ensures forall j :: 0 <= j < |files| ==> files[j].ctime <= files[k].ctime
    ensures forall j :: 0 <= j < k ==> files[j].ctime < files[k].ctime
  {
    if |files| == 1 then 0
    else
      var best := NewestIndex(files[..|files| - 1]);
      if files[|files| - 1].ctime > files[best].ctime then |files| - 1 else best
  }

  /** No file the glob returns from `listing` is newer than `e`. */
  predicate IsNewest(e: FileEntry, listing: seq<FileEntry>) {
    forall f :: f in listing && MatchesExportPattern(f.name) ==> f.ctime <= e.ctime
  }

  /** The name a downloaded file is renamed to: the row's file name plus ".txt". */
  function TargetName(fileName: string): (r: string)
    ensures |r| == |fileName| + 4 && r[..|fileName|] == fileName && r[|fileName|..] == ".txt"
  {
    fileName + ".txt"
  }

  /**
   * The rename the export step performs for a listing, or None when no file
   * matches (the row is then a download error).
   */
  function ChooseDownload(listing: seq<FileEntry>, fileName: string): (r: Option<Move>)
    ensures r.None? <==> forall e :: e in listing ==> !MatchesExportPattern(e.name)
    ensures r.Some? ==> r.value.target == TargetName(fileName)
    ensures r.Some? ==>
      exists e :: e in listing && MatchesExportPattern(e.name) && e.name == r.value.source && IsNewest(e, listing)
  {
    var candidates := Matching(listing);
    if candidates == [] then None
    else
      var k := NewestIndex(candidates);
      var e := candidates[k];
      assert e in listing && MatchesExportPattern(e.name);
      assert IsNewest(e, listing) by {
        forall f | f in listing && MatchesExportPattern(f.name) ensures f.ctime <= e.ctime {
          assert f in candidates;
          var j :| 0 <= j < |candidates| && candidates[j] == f;
        }
      }
      Some(Move(candidates[k].name, TargetName(fileName)))
  }

  /** A listing holding one matching file renames that file. */
  lemma LemmaSingleDownload(e: FileEntry, fileName: string)
    requires MatchesExportPattern(e.name)
    ensures ChooseDownload([e], fileName) == Some(Move(e.name, TargetName(fileName)))
  {
    assert Matching([e]) == [e];
  }
}
