/**
 * The query table and the automation loop over it. The table is updated in
 * place: the two status columns are added when missing, then every row, in
 * order, receives its comment and possibly its result count.
 */
module Workbook {
  import opened Wrappers
  import opened Cells
  import opened Numerals
  import opened Downloads
  import opened Rows
  import opened Styling

  const QueryColumn: string := "Search Strategy 1"
  const FileNameColumn: string := "File Name"
  const CommentColumn: string := "Comment"
  const CountColumn: string := "Result Count"

  /** Column labels are unique, as they are in a table read from a workbook. */
  predicate Distinct(columns: seq<string>) {
    forall a, b :: 0 <= a < b < |columns| ==> columns[a] != columns[b]
  }

  /** Every row has one cell per column. */
  predicate Fits(columns: seq<string>, rs: seq<seq<Cell>>) {
    forall i :: 0 <= i < |rs| ==> |rs[i]| == |columns|
  }

  predicate HasStatusColumns(columns: seq<string>) {
    CommentColumn in columns && CountColumn in columns
  }

  /** The position of a column label, or -1 when there is none. */
  function IndexOf(columns: seq<string>, name: string): (k: int)
    ensures -1 <= k < |columns|
    ensures k < 0 <==> name !in columns
    ensures 0 <= k ==> columns[k] == name && name !in columns[..k]
  {
    if columns == [] then -1
    else if columns[0] == name then 0
    else
      var k := IndexOf(columns[1..], name);
      if k < 0 then -1 else k + 1
  }

  /** A row's cell under a label; a missing column reads as a missing value. */
  function Lookup(columns: seq<string>, row: seq<Cell>, name: string): (c: Cell)
    requires |row| == |columns|
    ensures name !in columns ==> c == Missing
  {
    var k := IndexOf(columns, name);
    if k < 0 then Missing else row[k]
  }

  /** With unique labels, the cell under a column's own label is that column's cell. */
  lemma LemmaLookupAt(columns: seq<string>, row: seq<Cell>, k: nat)
    requires |row| == |columns| && Distinct(columns) && k < |columns|
    ensures Lookup(columns, row, columns[k]) == row[k]
  {
  }

  // ---------------------------------------------------------------------
  // Column initialisation
  // ---------------------------------------------------------------------

  /** The labels after a status column has been ensured. */
  function WithColumn(columns: seq<string>, name: string): (r: seq<string>)
    ensures name in r
    ensures name in columns ==> r == columns
    ensures name !in columns ==> r == columns + [name]
    ensures Distinct(columns) ==> Distinct(r)
  {
    if name in columns then columns else columns + [name]
  }

  /** The rows after a status column has been ensured: a new column is filled with "". */
  function Widen(columns: seq<string>, rs: seq<seq<Cell>>, name: string): (r: seq<seq<Cell>>)
    requires Fits(columns, rs)
    ensures Fits(WithColumn(columns, name), r) && |r| == |rs|
    ensures name in columns ==> r == rs
    ensures name !in columns ==> forall i :: 0 <= i < |rs| ==> r[i] == rs[i] + [Text("")]
  {
    if name in columns then rs else seq(|rs|, i requires 0 <= i < |rs| => rs[i] + [Text("")])
  }

  // ---------------------------------------------------------------------
  // One row
  // ---------------------------------------------------------------------

  /** The effect of processing a row, read from its cells. */
  function EffectOn(columns: seq<string>, row: seq<Cell>, outcome: PageOutcome): RowEffect
    requires |row| == |columns|
  {
    Effect(Lookup(columns, row, QueryColumn), Lookup(columns, row, FileNameColumn),
           Lookup(columns, row, CommentColumn), outcome)
  }

  /** Loading the search page fails for a row that is not skipped: the run stops. */
  predicate Halts(columns: seq<string>, row: seq<Cell>, outcome: PageOutcome)
    requires |row| == |columns|
  {
    !Skipped(Lookup(columns, row, QueryColumn), Lookup(columns, row, FileNameColumn)) &&
    outcome.NavigationFailed?
  }

  /**
   * A row with an effect written into it: the count stored when one was
   * read, then the comment; every other cell as it was.
   */
  function Apply(columns: seq<string>, row: seq<Cell>, e: RowEffect): (r: seq<Cell>)
    requires |row| == |columns| && HasStatusColumns(columns)
    ensures |r| == |row|
    ensures forall k :: 0 <= k < |row| && columns[k] != CommentColumn && columns[k] != CountColumn ==> r[k] == row[k]
    ensures Lookup(columns, r, CommentColumn) == e.comment
    ensures Lookup(columns, r, CountColumn) == if e.count.Some? then Number(e.count.value) else Lookup(columns, row, CountColumn)
  {
    var comment := IndexOf(columns, CommentColumn);
    var count := IndexOf(columns, CountColumn);
    assert comment != count by {
      assert columns[comment] == CommentColumn && columns[count] == CountColumn;
    }
    var counted := if e.count.Some? then row[count := Number(e.count.value)] else row;
    counted[comment := e.comment]
  }

  /** A processed row: the effect read from its own cells, written into it. */
  function Annotate(columns: seq<string>, row: seq<Cell>, outcome: PageOutcome): seq<Cell>
    requires |row| == |columns| && HasStatusColumns(columns)
  {
    Apply(columns, row, EffectOn(columns, row, outcome))
  }

  /**
   * A row that is not skipped and whose search page loaded, annotated: a
   * broken search leaves the handler's comment; otherwise the count is
   * stored, and the comment is the cap's, the handler's, the quoted-phrase
   * warning's, or the export's.
   */
  lemma LemmaAnnotateSearched(columns: seq<string>, row: seq<Cell>, outcome: PageOutcome)
    requires |row| == |columns| && HasStatusColumns(columns)
    requires !Skipped(Lookup(columns, row, QueryColumn), Lookup(columns, row, FileNameColumn))
    requires !outcome.NavigationFailed?
    ensures SearchBroke(outcome) ==>
      && EffectOn(columns, row, outcome).move.None?
      && Annotate(columns, row, outcome) ==
         row[IndexOf(columns, CommentColumn) := AfterSearchError(Lookup(columns, row, CommentColumn))]
    ensures !SearchBroke(outcome) ==>
      var n := ParseCount(outcome.summary).value;
      var counted := row[IndexOf(columns, CountColumn) := Number(n)];
      var move := EffectOn(columns, row, outcome).move;
      if n <= MaxResults && outcome.Page? && !HasQuotedWarning(outcome.alerts) then
        && move == (match outcome.download
                    case ExportFailed => None
                    case Listing(files) => ChooseDownload(files, Render(Lookup(columns, row, FileNameColumn))))
        && Annotate(columns, row, outcome) ==
           counted[IndexOf(columns, CommentColumn) := if move.Some? then Text(Downloaded) else Text(DownloadError)]
      else
        && move.None?
        && Annotate(columns, row, outcome) ==
           counted[IndexOf(columns, CommentColumn) :=
             if n > MaxResults then Text(TooManyResults)
             else if outcome.AlertsFailed? then AfterSearchError(Lookup(columns, row, CommentColumn))
             else Text(QuotedPhraseWarning)]
  {
  }

  function MoveList(m: Option<Move>): seq<Move> {
    if m.Some? then [m.value] else []
  }

  // ---------------------------------------------------------------------
  // The loop over the rows' steps
  // ---------------------------------------------------------------------

  /** What the loop body does with one row: whether it ends the run, the row it leaves, the rename it performs. */
  datatype Step = Step(halts: bool, row: seq<Cell>, move: Option<Move>)

  /** The run has stopped at one of the first `k` steps. */
  predicate Stopped(steps: seq<Step>, k: nat)
    requires k <= |steps|
  {
    exists j :: 0 <= j < k && steps[j].halts
  }

  /** The table once the loop is over: a row at or after the stopping step is left as it was. */
  function Table(rs: seq<seq<Cell>>, steps: seq<Step>): seq<seq<Cell>>
    requires |rs| == |steps|
  {
    seq(|rs|, i requires 0 <= i < |rs| => if Stopped(steps, i + 1) then rs[i] else steps[i].row)
  }

  /** The renames of the first `k` steps, in order; none from the stopping step on. */
  function Collect(steps: seq<Step>, k: nat): (r: seq<Move>)
    requires k <= |steps|
    ensures |r| <= k
  {
    if k == 0 then []
    else if Stopped(steps, k) then Collect(steps, k - 1)
    else Collect(steps, k - 1) + MoveList(steps[k - 1].move)
  }

  /** A step that does not stop the run adds its rename, and the run has still not stopped. */
  lemma {:induction false} LemmaCollectStep(steps: seq<Step>, i: nat)
    requires i < |steps| && !Stopped(steps, i) && !steps[i].halts
    ensures !Stopped(steps, i + 1)
    ensures Collect(steps, i + 1) == Collect(steps, i) + MoveList(steps[i].move)
  {
    forall j | 0 <= j < i + 1
      ensures !steps[j].halts
    {
      if j < i {
        assert !Stopped(steps, i);
      }
    }
  }

  /** After a stopping step, no further rename happens. */
  lemma {:induction false} LemmaCollectStop(steps: seq<Step>, i: nat, k: nat)
    requires i < k <= |steps| && steps[i].halts
    ensures Collect(steps, k) == Collect(steps, i)
  {
    assert Stopped(steps, k);
    if k > i + 1 {
      LemmaCollectStop(steps, i, k - 1);
    }
  }

  /** Every rename collected comes from a step before the run stopped. */
  lemma {:induction false} LemmaCollectFrom(steps: seq<Step>, k: nat, m: Move)
    requires k <= |steps| && m in Collect(steps, k)
    ensures exists i :: 0 <= i < k && !Stopped(steps, i + 1) && steps[i].move == Some(m)
  {
    var n := k - 1;
    if m in Collect(steps, n) {
      LemmaCollectFrom(steps, n, m);
      var i :| 0 <= i < n && !Stopped(steps, i + 1) && steps[i].move == Some(m);
      assert 0 <= i < k;
    } else {
      assert !Stopped(steps, k) && m in MoveList(steps[n].move);
      assert !Stopped(steps, n + 1);
    }
  }

  /** A run stopped within the first `a` steps has stopped within any longer prefix. */
  lemma LemmaStoppedGrows(steps: seq<Step>, a: nat, b: nat)
    requires a <= b <= |steps|
    ensures Stopped(steps, a) ==> Stopped(steps, b)
  {
  }

  /** A loop that went through every step without stopping leaves each row as its step says. */
  lemma {:induction false} LemmaTableCompleted(rs: seq<seq<Cell>>, steps: seq<Step>, t: seq<seq<Cell>>)
    requires |rs| == |steps| == |t| && !Stopped(steps, |steps|)
    requires forall r :: 0 <= r < |t| ==> t[r] == steps[r].row
    ensures t == Table(rs, steps)
  {
    forall r | 0 <= r < |t|
      ensures t[r] == Table(rs, steps)[r]
    {
      LemmaStoppedGrows(steps, r + 1, |steps|);
    }
  }

  /** A loop that stopped at step `i` leaves the rows from `i` on as they were. */
  lemma {:induction false} LemmaTableStopped(rs: seq<seq<Cell>>, steps: seq<Step>, i: nat, t: seq<seq<Cell>>)
    requires |rs| == |steps| == |t| && i < |steps| && steps[i].halts && !Stopped(steps, i)
    requires forall r :: 0 <= r < i ==> t[r] == steps[r].row
    requires forall r :: i <= r < |t| ==> t[r] == rs[r]
    ensures t == Table(rs, steps)
    ensures Stopped(steps, |steps|)
    ensures Collect(steps, |steps|) == Collect(steps, i)
  {
    assert Stopped(steps, i + 1);
    forall r | 0 <= r < |t|
      ensures t[r] == Table(rs, steps)[r]
    {
      if r < i {
        LemmaStoppedGrows(steps, r + 1, i);
      } else {
        LemmaStoppedGrows(steps, i + 1, r + 1);
      }
    }
    LemmaStoppedGrows(steps, i + 1, |steps|);
    LemmaCollectStop(steps, i, |steps|);
  }

  // ---------------------------------------------------------------------
  // The whole loop, as a function of the table and the browser's outcomes
  // ---------------------------------------------------------------------

  /** The loop body's step on a row with the given outcome. */
  function RowStep(columns: seq<string>, row: seq<Cell>, outcome: PageOutcome): Step
    requires |row| == |columns| && HasStatusColumns(columns)
  {
    if Halts(columns, row, outcome) then Step(true, row, None)
    else
      var e := EffectOn(columns, row, outcome);
      Step(false, Apply(columns, row, e), e.move)
  }

  /**
   * `steps` are the loop body's steps on the rows. The fact about step `i` is
   * used only where row `i`'s step is named, which keeps it out of the
   * reasoning about the loop as a whole.
   */
  predicate StepsFor(steps: seq<Step>, columns: seq<string>, rs: seq<seq<Cell>>, outs: seq<PageOutcome>)
    requires Fits(columns, rs) && |rs| == |outs| && HasStatusColumns(columns)
  {
    && |steps| == |rs|
    && forall i {:trigger RowStep(columns, rs[i], outs[i])} :: 0 <= i < |rs| ==> steps[i] == RowStep(columns, rs[i], outs[i])
  }

  /** The loop body's steps on the first `k` rows. */
  function StepsUpTo(columns: seq<string>, rs: seq<seq<Cell>>, outs: seq<PageOutcome>, k: nat): (s: seq<Step>)
    requires Fits(columns, rs) && |rs| == |outs| && HasStatusColumns(columns) && k <= |rs|
    ensures |s| == k
    ensures forall i {:trigger RowStep(columns, rs[i], outs[i])} :: 0 <= i < k ==> s[i] == RowStep(columns, rs[i], outs[i])
  {
    if k == 0 then [] else StepsUpTo(columns, rs, outs, k - 1) + [RowStep(columns, rs[k - 1], outs[k - 1])]
  }

  /** The loop body's step on every row. */
  function Steps(columns: seq<string>, rs: seq<seq<Cell>>, outs: seq<PageOutcome>): (s: seq<Step>)
    requires Fits(columns, rs) && |rs| == |outs| && HasStatusColumns(columns)
    ensures StepsFor(s, columns, rs, outs)
  {
    StepsUpTo(columns, rs, outs, |rs|)
  }

  /** Some row among the first `k` halts the run. */
  predicate HaltsWithin(columns: seq<string>, rs: seq<seq<Cell>>, outs: seq<PageOutcome>, k: nat)
    requires Fits(columns, rs) && |rs| == |outs| && k <= |rs|
  {
    exists j :: 0 <= j < k && Halts(columns, rs[j], outs[j])
  }

  /** The run stops within the first `k` steps exactly when one of the first `k` rows halts it. */
  lemma {:induction false} LemmaStoppedIff(steps: seq<Step>, columns: seq<string>, rs: seq<seq<Cell>>, outs: seq<PageOutcome>, k: nat)
    requires Fits(columns, rs) && |rs| == |outs| && HasStatusColumns(columns) && k <= |rs|
    requires StepsFor(steps, columns, rs, outs)
    ensures Stopped(steps, k) <==> HaltsWithin(columns, rs, outs, k)
  {
    forall j | 0 <= j < k
      ensures steps[j].halts == Halts(columns, rs[j], outs[j])
    {
      assert steps[j] == RowStep(columns, rs[j], outs[j]);
    }
  }

  /** Row `i` after the loop: processed, unless the run stopped at or before it. */
  function Processed(columns: seq<string>, rs: seq<seq<Cell>>, outs: seq<PageOutcome>, i: nat): seq<Cell>
    requires Fits(columns, rs) && |rs| == |outs| && HasStatusColumns(columns) && i < |rs|
  {
    if HaltsWithin(columns, rs, outs, i + 1) then rs[i] else Annotate(columns, rs[i], outs[i])
  }

  /** The table after the loop: the same rows in the same order. */
  function RunRows(columns: seq<string>, rs: seq<seq<Cell>>, outs: seq<PageOutcome>): (r: seq<seq<Cell>>)
    requires Fits(columns, rs) && |rs| == |outs| && HasStatusColumns(columns)
    ensures |r| == |rs|
  {
    Table(rs, Steps(columns, rs, outs))
  }

  /** Each row after the loop is processed, unless the run stopped at or before it. */
  lemma LemmaRunRowsProcessed(columns: seq<string>, rs: seq<seq<Cell>>, outs: seq<PageOutcome>)
    requires Fits(columns, rs) && |rs| == |outs| && HasStatusColumns(columns)
    ensures Fits(columns, RunRows(columns, rs, outs))
    ensures forall i :: 0 <= i < |rs| ==> RunRows(columns, rs, outs)[i] == Processed(columns, rs, outs, i)
  {
    forall i | 0 <= i < |rs|
      ensures RunRows(columns, rs, outs)[i] == Processed(columns, rs, outs, i)
    {
      LemmaTableAt(Steps(columns, rs, outs), columns, rs, outs, i);
    }
  }

  /** Row `i` of the table the steps leave is the row processed, unless the run stopped at or before it. */
  lemma {:induction false} LemmaTableAt(steps: seq<Step>, columns: seq<string>, rs: seq<seq<Cell>>, outs: seq<PageOutcome>, i: nat)
    requires Fits(columns, rs) && |rs| == |outs| && HasStatusColumns(columns) && i < |rs|
    requires StepsFor(steps, columns, rs, outs)
    ensures Table(rs, steps)[i] == Processed(columns, rs, outs, i)
  {
    LemmaStoppedIff(steps, columns, rs, outs, i + 1);
    assert Table(rs, steps)[i] == if Stopped(steps, i + 1) then rs[i] else steps[i].row;
    if !HaltsWithin(columns, rs, outs, i + 1) {
      assert !Halts(columns, rs[i], outs[i]);
      assert steps[i] == RowStep(columns, rs[i], outs[i]);
    }
  }

  /** The loop writes only the two status columns: every other cell of every row is kept. */
  lemma LemmaRunRowsKeepsCells(columns: seq<string>, rs: seq<seq<Cell>>, outs: seq<PageOutcome>)
    requires Fits(columns, rs) && |rs| == |outs| && HasStatusColumns(columns)
    ensures forall i, k :: 0 <= i < |rs| && 0 <= k < |columns| && columns[k] != CommentColumn && columns[k] != CountColumn ==>
      k < |RunRows(columns, rs, outs)[i]| && RunRows(columns, rs, outs)[i][k] == rs[i][k]
  {
    LemmaRunRowsProcessed(columns, rs, outs);
    forall i, k | 0 <= i < |rs| && 0 <= k < |columns| && columns[k] != CommentColumn && columns[k] != CountColumn
      ensures RunRows(columns, rs, outs)[i][k] == rs[i][k]
    {
      if !HaltsWithin(columns, rs, outs, i + 1) {
        assert RunRows(columns, rs, outs)[i] == Apply(columns, rs[i], EffectOn(columns, rs[i], outs[i]));
      }
    }
  }

  /** The renames the loop performs over the first `k` rows, in row order. */
  function Renames(columns: seq<string>, rs: seq<seq<Cell>>, outs: seq<PageOutcome>, k: nat): (r: seq<Move>)
    requires Fits(columns, rs) && |rs| == |outs| && HasStatusColumns(columns) && k <= |rs|
    ensures |r| <= k
  {
    Collect(Steps(columns, rs, outs), k)
  }

  /** After a row whose page fails to load, no further rename happens. */
  lemma LemmaRenamesStop(columns: seq<string>, rs: seq<seq<Cell>>, outs: seq<PageOutcome>, i: nat, k: nat)
    requires Fits(columns, rs) && |rs| == |outs| && HasStatusColumns(columns)
    requires i < k <= |rs| && Halts(columns, rs[i], outs[i])
    ensures Renames(columns, rs, outs, k) == Renames(columns, rs, outs, i)
  {
    var steps := Steps(columns, rs, outs);
    assert steps[i] == RowStep(columns, rs[i], outs[i]);
    LemmaCollectStop(steps, i, k);
  }

  /** Rename `m` went to the target name of a row `i` that ended up marked "Downloaded". */
  predicate RenamedFor(columns: seq<string>, rs: seq<seq<Cell>>, outs: seq<PageOutcome>, m: Move, i: int)
    requires Fits(columns, rs) && |rs| == |outs| && HasStatusColumns(columns)
  {
    && 0 <= i < |rs|
    && Lookup(columns, Processed(columns, rs, outs, i), CommentColumn) == Text(Downloaded)
    && m.target == TargetName(Render(Lookup(columns, rs[i], FileNameColumn)))
  }

  /**
   * Every rename the loop performs moves a file the export pattern matches
   * to the target name of a row that the loop marked "Downloaded".
   */
  lemma LemmaRenamesDownloaded(columns: seq<string>, rs: seq<seq<Cell>>, outs: seq<PageOutcome>, k: nat)
    requires Fits(columns, rs) && |rs| == |outs| && HasStatusColumns(columns) && k <= |rs|
    ensures forall m :: m in Renames(columns, rs, outs, k) ==>
      MatchesExportPattern(m.source) && exists i :: RenamedFor(columns, rs, outs, m, i)
  {
    var steps := Steps(columns, rs, outs);
    forall m | m in Renames(columns, rs, outs, k)
      ensures MatchesExportPattern(m.source) && exists i :: RenamedFor(columns, rs, outs, m, i)
    {
      LemmaCollectFrom(steps, k, m);
      var i :| 0 <= i < k && !Stopped(steps, i + 1) && steps[i].move == Some(m);
      assert steps[i] == RowStep(columns, rs[i], outs[i]);
      LemmaStoppedIff(steps, columns, rs, outs, i + 1);
      LemmaRenameOfRow(columns, rs, outs, i);
      assert RenamedFor(columns, rs, outs, m, i);
    }
  }

  /** The rename a row's export performs is recorded for that row. */
  lemma LemmaRenameOfRow(columns: seq<string>, rs: seq<seq<Cell>>, outs: seq<PageOutcome>, n: nat)
    requires Fits(columns, rs) && |rs| == |outs| && HasStatusColumns(columns) && n < |rs|
    requires !HaltsWithin(columns, rs, outs, n + 1)
    requires EffectOn(columns, rs[n], outs[n]).move.Some?
    ensures var m := EffectOn(columns, rs[n], outs[n]).move.value;
      MatchesExportPattern(m.source) && RenamedFor(columns, rs, outs, m, n)
  {
    var e := EffectOn(columns, rs[n], outs[n]);
    assert Processed(columns, rs, outs, n) == Annotate(columns, rs[n], outs[n]);
    assert e.move == ChooseDownload(outs[n].download.files, Render(Lookup(columns, rs[n], FileNameColumn)));
  }

  /** The table being processed: labels and an array of rows whose cells are updated in place. */
  class Frame {
    var columns: seq<string>
    const rows: array<seq<Cell>>

    ghost predicate Valid()
      reads this, rows
    {
      Distinct(columns) && Fits(columns, rows[..])
    }

    /** The table as it was read. */
    constructor (header: seq<string>, data: seq<seq<Cell>>)
      requires Distinct(header) && Fits(header, data)
      ensures Valid() && columns == header && rows[..] == data
    {
      columns := header;
      rows := new seq<Cell>[|data|](i requires 0 <= i < |data| => data[i]);
    }

    /** `row.get(name)` on row `i`. */
    function Get(i: nat, name: string): Cell
      reads this, rows
      requires Valid() && i < rows.Length
    {
      Lookup(columns, rows[i], name)
    }

    /** Adds a column filled with "" when the table has none by that label. */
    method AddColumnIfMissing(name: string)
      requires Valid()
      modifies this, rows
      ensures Valid()
      ensures columns == WithColumn(old(columns), name)
      ensures rows[..] == Widen(old(columns), old(rows[..]), name)
    {
      if name !in columns {
        forall i | 0 <= i < rows.Length {
          rows[i] := rows[i] + [Text("")];
        }
        columns := columns + [name];
      }
    }

    /** `df.at[i, name] = v`. */
    method SetCell(i: nat, name: string, v: Cell)
      requires Valid() && i < rows.Length && name in columns
      modifies rows
      ensures Valid()
      ensures rows[i] == old(rows[i])[IndexOf(columns, name) := v]
      ensures forall j :: 0 <= j < rows.Length && j != i ==> rows[j] == old(rows[j])
    {
      rows[i] := rows[i][IndexOf(columns, name) := v];
    }

    /**
     * One pass of the loop body for row `i`. `halted` reports that loading
     * the search page failed, which ends the loop; `move` is the rename the
     * export step performed.
     */
    method ProcessRow(i: nat, outcome: PageOutcome) returns (halted: bool, move: Option<Move>)
      requires Valid() && i < rows.Length && HasStatusColumns(columns)
      modifies rows
      ensures Valid()
      ensures halted == Halts(columns, old(rows[i]), outcome)
      ensures rows[i] == if halted then old(rows[i]) else Annotate(columns, old(rows[i]), outcome)
      ensures move == if halted then None else EffectOn(columns, old(rows[i]), outcome).move
      ensures forall j :: 0 <= j < rows.Length && j != i ==> rows[j] == old(rows[j])
    {
      halted, move := false, None;
      var query := Get(i, QueryColumn);
      var fileName := Get(i, FileNameColumn);
      if IsMissing(query) || IsMissing(fileName) {
        SetCell(i, CommentColumn, Text(EmptyValues));
        return;
      }
      if outcome.NavigationFailed? {
        halted := true;
        return;
      }

      LemmaAnnotateSearched(columns, rows[i], outcome);
      var proceed := SearchPhase(i, outcome);
      if proceed {
        move := ExportPhase(i, outcome.download, Render(fileName));
      }
    }

    /**
     * The search phase of row `i`, whose search page loaded: the count is
     * read and stored, then checked against the cap and the alerts. Each
     * failure in it goes to the handler. `proceed` reports that the export
     * phase follows, with only the count written so far.
     */
    method SearchPhase(i: nat, outcome: PageOutcome) returns (proceed: bool)
      requires Valid() && i < rows.Length && HasStatusColumns(columns)
      requires !outcome.NavigationFailed?
      modifies rows
      ensures Valid()
      ensures SearchBroke(outcome) ==>
        !proceed && rows[i] == old(rows[i])[IndexOf(columns, CommentColumn) :=
                                              AfterSearchError(Lookup(columns, old(rows[i]), CommentColumn))]
      ensures !SearchBroke(outcome) ==>
        var n := ParseCount(outcome.summary).value;
        var counted := old(rows[i])[IndexOf(columns, CountColumn) := Number(n)];
        && (proceed <==> n <= MaxResults && outcome.Page? && !HasQuotedWarning(outcome.alerts))
        && rows[i] == if proceed then counted else counted[IndexOf(columns, CommentColumn) :=
          if n > MaxResults then Text(TooManyResults)
          else if outcome.AlertsFailed? then AfterSearchError(Lookup(columns, old(rows[i]), CommentColumn))
          else Text(QuotedPhraseWarning)]
      ensures forall j :: 0 <= j < rows.Length && j != i ==> rows[j] == old(rows[j])
    {
      proceed := false;
      var count := ReadCount(i, outcome);
      if count.None? {
        return;
      }
      if count.value > MaxResults {
        SetCell(i, CommentColumn, Text(TooManyResults));
        return;
      }
      proceed := CheckAlerts(i, outcome);
    }

    /**
     * Reading row `i`'s result count from the summary and storing it; when the
     * search fails or the summary does not start with a number, the handler
     * runs instead and no count is stored.
     */
    method ReadCount(i: nat, outcome: PageOutcome) returns (count: Option<int>)
      requires Valid() && i < rows.Length && HasStatusColumns(columns)
      requires !outcome.NavigationFailed?
      modifies rows
      ensures Valid()
      ensures count == if SearchBroke(outcome) then None else ParseCount(outcome.summary)
      ensures rows[i] == if count.None?
                         then old(rows[i])[IndexOf(columns, CommentColumn) :=
                                           AfterSearchError(Lookup(columns, old(rows[i]), CommentColumn))]
                         else old(rows[i])[IndexOf(columns, CountColumn) := Number(count.value)]
      ensures forall j :: 0 <= j < rows.Length && j != i ==> rows[j] == old(rows[j])
    {
      count := None;
      if outcome.SearchFailed? {
        OnSearchError(i);
        return;
      }
      count := ParseCount(outcome.summary);
      if count.None? {
        OnSearchError(i);
        return;
      }
      SetCell(i, CountColumn, Number(count.value));
    }

    /**
     * The scan of row `i`'s alert banners, once its count is stored and under
     * the cap: a quoted-phrase alert marks the row and raises, and a failure
     * to read the banners raises; either way the handler runs. `proceed`
     * reports that neither happened.
     */
    method CheckAlerts(i: nat, outcome: PageOutcome) returns (proceed: bool)
      requires Valid() && i < rows.Length && HasStatusColumns(columns)
      requires ShowsSummary(outcome)
      modifies rows
      ensures Valid()
      ensures proceed <==> outcome.Page? && !HasQuotedWarning(outcome.alerts)
      ensures rows[i] == if proceed then old(rows[i])
                         else old(rows[i])[IndexOf(columns, CommentColumn) :=
                           if outcome.AlertsFailed? then AfterSearchError(Lookup(columns, old(rows[i]), CommentColumn))
                           else Text(QuotedPhraseWarning)]
      ensures forall j :: 0 <= j < rows.Length && j != i ==> rows[j] == old(rows[j])
    {
      proceed := false;
      if outcome.AlertsFailed? {
        OnSearchError(i);
        return;
      }
      var quoted := ScanAlerts(outcome.alerts);
      if quoted {
        SetCell(i, CommentColumn, Text(QuotedPhraseWarning));
        OnSearchError(i);
        return;
      }
      proceed := true;
    }

    /**
     * The export phase of row `i`, for the row's file name: the newest
     * exported file is renamed and the row is marked "Downloaded", or the
     * row is marked "Download error" when the export failed or left no file.
     */
    method ExportPhase(i: nat, download: DownloadOutcome, fileName: string) returns (move: Option<Move>)
      requires Valid() && i < rows.Length && HasStatusColumns(columns)
      modifies rows
      ensures Valid()
      ensures move == if download.ExportFailed? then None else ChooseDownload(download.files, fileName)
      ensures rows[i] == old(rows[i])[IndexOf(columns, CommentColumn) :=
                                      if move.Some? then Text(Downloaded) else Text(DownloadError)]
      ensures forall j :: 0 <= j < rows.Length && j != i ==> rows[j] == old(rows[j])
    {
      move := None;
      match download
      case ExportFailed =>
        SetCell(i, CommentColumn, Text(DownloadError));
      case Listing(files) =>
        var candidates := Matching(files);
        if candidates != [] {
          var k := NewestIndex(candidates);
          move := Some(Move(candidates[k].name, TargetName(fileName)));
          SetCell(i, CommentColumn, Text(Downloaded));
        } else {
          SetCell(i, CommentColumn, Text(DownloadError));
        }
    }

    /**
     * The search phase's exception handler: the row keeps a comment it
     * already carries, and is otherwise marked as a search/warning error.
     */
    method OnSearchError(i: nat)
      requires Valid() && i < rows.Length && HasStatusColumns(columns)
      modifies rows
      ensures Valid()
      ensures rows[i] == old(rows[i])[IndexOf(columns, CommentColumn) :=
                                      AfterSearchError(Lookup(columns, old(rows[i]), CommentColumn))]
      ensures forall j :: 0 <= j < rows.Length && j != i ==> rows[j] == old(rows[j])
    {
      if !HasComment(Get(i, CommentColumn)) {
        SetCell(i, CommentColumn, Text(SearchWarningError));
      } else {
        assert rows[i] == rows[i][IndexOf(columns, CommentColumn) := Get(i, CommentColumn)];
      }
    }

    /**
     * One iteration of the loop over the rows: row `i`, still as it was read,
     * is processed as its step says.
     */
    method Advance(ghost start: seq<seq<Cell>>, ghost steps: seq<Step>, outcomes: seq<PageOutcome>, i: nat)
      returns (halted: bool, move: Option<Move>)
      requires Valid() && HasStatusColumns(columns) && |outcomes| == rows.Length == |start| && i < rows.Length
      requires Fits(columns, start) && StepsFor(steps, columns, start, outcomes) && rows[i] == start[i]
      modifies rows
      ensures Valid()
      ensures halted == steps[i].halts && move == steps[i].move
      ensures rows[i] == if halted then start[i] else steps[i].row
      ensures forall j :: 0 <= j < rows.Length && j != i ==> rows[j] == old(rows[j])
    {
      halted, move := ProcessRow(i, outcomes[i]);
      assert steps[i] == RowStep(columns, start[i], outcomes[i]);
    }

    /** The loop over the rows in order; it stops at a row whose search page fails to load. */
    method ProcessRows(outcomes: seq<PageOutcome>) returns (moves: seq<Move>, aborted: bool)
      requires Valid() && HasStatusColumns(columns) && |outcomes| == rows.Length
      modifies rows
      ensures Valid()
      ensures rows[..] == RunRows(columns, old(rows[..]), outcomes)
      ensures moves == Renames(columns, old(rows[..]), outcomes, rows.Length)
      ensures aborted == HaltsWithin(columns, old(rows[..]), outcomes, rows.Length)
    {
      ghost var start := rows[..];
      ghost var steps := Steps(columns, start, outcomes);
      moves, aborted := RunSteps(start, steps, outcomes);
      LemmaStoppedIff(steps, columns, start, outcomes, |start|);
    }

    /** The loop itself, following the rows' steps until one of them stops the run. */
    method RunSteps(ghost start: seq<seq<Cell>>, ghost steps: seq<Step>, outcomes: seq<PageOutcome>)
      returns (moves: seq<Move>, aborted: bool)
      requires Valid() && HasStatusColumns(columns) && |outcomes| == rows.Length
      requires rows[..] == start && StepsFor(steps, columns, start, outcomes)
      modifies rows
      ensures Valid()
      ensures rows[..] == Table(start, steps)
      ensures moves == Collect(steps, |steps|)
      ensures aborted == Stopped(steps, |steps|)
    {
      moves, aborted := [], false;
      var i := 0;
      while i < rows.Length
        invariant 0 <= i <= rows.Length
        invariant Valid()
        invariant !Stopped(steps, i)
        invariant forall r :: 0 <= r < i ==> rows[r] == steps[r].row
        invariant forall r :: i <= r < rows.Length ==> rows[r] == start[r]
        invariant moves == Collect(steps, i)
      {
        var halted, move := Advance(start, steps, outcomes, i);
        if halted {
          aborted := true;
          LemmaTableStopped(start, steps, i, rows[..]);
          return;
        }
        LemmaCollectStep(steps, i);
        moves := moves + MoveList(move);
        i := i + 1;
      }
      LemmaTableCompleted(start, steps, rows[..]);
    }

    /**
     * The whole procedure on a table that was read: ensure the two status
     * columns, run the loop, then compute the header widths (this happens
     * whether or not the loop stopped early).
     */
    method ProcessExcel(outcomes: seq<PageOutcome>) returns (moves: seq<Move>, aborted: bool, widths: seq<nat>)
      requires Valid() && |outcomes| == rows.Length
      modifies this, rows
      ensures Valid()
      ensures columns == WithColumn(WithColumn(old(columns), CommentColumn), CountColumn)
      ensures var table := Widen(WithColumn(old(columns), CommentColumn),
                                 Widen(old(columns), old(rows[..]), CommentColumn), CountColumn);
        && rows[..] == RunRows(columns, table, outcomes)
        && moves == Renames(columns, table, outcomes, rows.Length)
        && aborted == HaltsWithin(columns, table, outcomes, rows.Length)
      ensures |widths| == |columns|
      ensures forall k :: 0 <= k < |columns| ==> widths[k] == ColumnWidth(columns[k])
    {
      AddColumnIfMissing(CommentColumn);
      AddColumnIfMissing(CountColumn);
      moves, aborted := ProcessRows(outcomes);
      widths := HeaderWidths(columns);
    }
  }
}
