/**
 * The manifest reader of clipatron: the rows of a CSV manifest, already split
 * into cells and keyed by the header's column names, are checked one at a time
 * and turned into (start time, duration, filename) clips.
 */
module Manifest {
  import opened Wrappers

  /** A data row as the CSV reader delivers it: column name to cell. A cell is
      None when the row has fewer fields than the header names. A column the
      header does not name has no key at all. */
  type Row = map<string, Option<string>>

  /** The three columns every row must carry. Any other column is ignored. */
  datatype Column = StartTime | Duration | Filename {
    /** The header name of the column. */
    function Key(): string {
      match this
      case StartTime => "start_time"
      case Duration => "duration"
      case Filename => "filename"
    }

    /** The position of the column in the order in which rows are checked. */
    function Rank(): nat {
      match this
      case StartTime => 0
      case Duration => 1
      case Filename => 2
    }
  }

  /** The columns in checking order. */
  const Required: seq<Column> := [StartTime, Duration, Filename]

  /** One clip to cut, with the cells copied verbatim from its row. */
  datatype Clip = Clip(startTime: string, duration: string, filename: string)

  /** Why a row was refused; `row` is its spreadsheet-style number. */
  datatype RowError =
    | MissingColumn(row: nat, column: Column)
    | EmptyValue(row: nat, column: Column)

  /** The header is row 1 of the spreadsheet; data rows follow it. */
  const HeaderRow: nat := 1

  /** The spreadsheet-style number of the data row at 0-based position `index`. */
  function RowNumber(index: nat): nat {
    index + HeaderRow + 1
  }

  predicate Present(row: Row, c: Column) {
    c.Key() in row
  }

  /** A cell that Python treats as false: absent (None) or the empty string. */
  predicate Blank(row: Row, c: Column)
    requires Present(row, c)
  {
    row[c.Key()].None? || row[c.Key()].value == ""
  }

  /** The index of the first column of `cols` the row lacks, or |cols|. */
  function FirstMissing(row: Row, cols: seq<Column>): (i: nat)
    ensures i <= |cols|
    ensures forall j :: 0 <= j < i ==> Present(row, cols[j])
    ensures i < |cols| ==> !Present(row, cols[i])
  {
    if cols == [] then 0
    else if !Present(row, cols[0]) then 0
    else 1 + FirstMissing(row, cols[1..])
  }

  /** The index of the first column of `cols` whose cell is blank, or |cols|. */
  function FirstBlank(row: Row, cols: seq<Column>): (i: nat)
    requires forall j :: 0 <= j < |cols| ==> Present(row, cols[j])
    ensures i <= |cols|
    ensures forall j :: 0 <= j < i ==> !Blank(row, cols[j])
    ensures i < |cols| ==> Blank(row, cols[i])
  {
    if cols == [] then 0
    else if Blank(row, cols[0]) then 0
    else 1 + FirstBlank(row, cols[1..])
  }

  /** FirstMissing over the required columns, spelt out. */
  lemma FirstMissingRequired(row: Row)
    ensures FirstMissing(row, Required) ==
              if !Present(row, StartTime) then 0
              else if !Present(row, Duration) then 1
              else if !Present(row, Filename) then 2
              else 3
  {
    var rest1, rest2 := Required[1..], Required[2..];
    assert rest1 == [Duration, Filename] && rest1[1..] == rest2;
    assert rest2 == [Filename] && rest2[1..] == [];
    assert FirstMissing(row, rest2) == if !Present(row, Filename) then 0 else 1;
  }

  /** FirstBlank over the required columns of a row that has them all, spelt out. */
  lemma FirstBlankRequired(row: Row)
    requires Present(row, StartTime) && Present(row, Duration) && Present(row, Filename)
    ensures forall j :: 0 <= j < |Required| ==> Present(row, Required[j])
    ensures FirstBlank(row, Required) ==
              if Blank(row, StartTime) then 0
              else if Blank(row, Duration) then 1
              else if Blank(row, Filename) then 2
              else 3
  {
    var rest1, rest2 := Required[1..], Required[2..];
    assert rest1 == [Duration, Filename] && rest1[1..] == rest2;
    assert rest2 == [Filename] && rest2[1..] == [];
    assert FirstBlank(row, rest2) == if Blank(row, Filename) then 0 else 1;
  }

  lemma RequiredInRankOrder()
    ensures |Required| == 3
    ensures forall c: Column :: c.Rank() < 3 && Required[c.Rank()] == c
    ensures forall i :: 0 <= i < |Required| ==> Required[i].Rank() == i
  {
  }

  /** The text of a cell the row has and that is not blank. */
  function Text(row: Row, c: Column): string
    requires Present(row, c) && !Blank(row, c)
  {
    row[c.Key()].value
  }

  /** Checking one row, numbered `number`: every required column is looked up
      first, in checking order, and only then is every cell tested for being
      blank, again in checking order. */
  function ValidateRow(row: Row, number: nat): (r: Result<Clip, RowError>)
    ensures r.Err? ==> r.error.row == number
    ensures r.Ok? <==> forall c: Column :: Present(row, c) && !Blank(row, c)
    ensures r.Ok? ==>
              && "start_time" in row && row["start_time"] == Some(r.value.startTime)
              && "duration" in row && row["duration"] == Some(r.value.duration)
              && "filename" in row && row["filename"] == Some(r.value.filename)
  {
    RequiredInRankOrder();
    var m := FirstMissing(row, Required);
    if m < |Required| then
      Err(MissingColumn(number, Required[m]))
    else
      var b := FirstBlank(row, Required);
      if b < |Required| then
        Err(EmptyValue(number, Required[b]))
      else
        assert forall c: Column :: Present(row, c) && !Blank(row, c) by {
          forall c: Column ensures Present(row, c) && !Blank(row, c) {
            assert Required[c.Rank()] == c;
          }
        }
        Ok(Clip(Text(row, StartTime), Text(row, Duration), Text(row, Filename)))
  }

  /** `c` is absent from the row and every column checked before it is there. */
  predicate FirstAbsent(row: Row, c: Column) {
    !Present(row, c) && forall d: Column :: d.Rank() < c.Rank() ==> Present(row, d)
  }

  /** Every column is there, `c` is blank and every column checked before it is not. */
  predicate FirstEmpty(row: Row, c: Column) {
    && (forall d: Column :: Present(row, d))
    && Blank(row, c)
    && forall d: Column :: d.Rank() < c.Rank() ==> !Blank(row, d)
  }

  /** A missing column is reported exactly when it is the first one absent in
      checking order; a blank cell never hides a missing column. */
  lemma MissingColumnReported(row: Row, number: nat, c: Column)
    ensures ValidateRow(row, number) == Err(MissingColumn(number, c)) <==> FirstAbsent(row, c)
    ensures (exists d: Column :: !Present(row, d)) ==>
              ValidateRow(row, number).Err? && ValidateRow(row, number).error.MissingColumn?
  {
    RequiredInRankOrder();
    var m := FirstMissing(row, Required);
    if FirstAbsent(row, c) {
      assert Required[c.Rank()] == c;
      assert forall j :: 0 <= j < c.Rank() ==> Present(row, Required[j]);
    }
    if (exists d: Column :: !Present(row, d)) {
      var d: Column :| !Present(row, d);
      assert Required[d.Rank()] == d;
    }
  }

  /** A blank cell is reported exactly when every column is there and it is the
      first blank cell in checking order. */
  lemma EmptyValueReported(row: Row, number: nat, c: Column)
    ensures ValidateRow(row, number) == Err(EmptyValue(number, c)) <==> FirstEmpty(row, c)
  {
    RequiredInRankOrder();
    var m := FirstMissing(row, Required);
    if FirstEmpty(row, c) {
      assert forall j :: 0 <= j < |Required| ==> Present(row, Required[j]);
      assert Required[c.Rank()] == c;
      assert forall j :: 0 <= j < c.Rank() ==> !Blank(row, Required[j]);
    }
    if ValidateRow(row, number) == Err(EmptyValue(number, c)) {
      forall d: Column ensures Present(row, d) {
        assert Required[d.Rank()] == d;
      }
    }
  }

  /** Two rows that agree on the three required columns. */
  predicate AgreeOnRequired(row: Row, other: Row) {
    forall c: Column ::
      && (Present(row, c) <==> Present(other, c))
      && (Present(row, c) ==> row[c.Key()] == other[c.Key()])
  }

  lemma {:induction false} FirstMissingAgree(row: Row, other: Row, cols: seq<Column>)
    requires AgreeOnRequired(row, other)
    ensures FirstMissing(row, cols) == FirstMissing(other, cols)
  {
    if cols != [] {
      FirstMissingAgree(row, other, cols[1..]);
    }
  }

  lemma {:induction false} FirstBlankAgree(row: Row, other: Row, cols: seq<Column>)
    requires AgreeOnRequired(row, other)
    requires forall j :: 0 <= j < |cols| ==> Present(row, cols[j])
    ensures forall j :: 0 <= j < |cols| ==> Present(other, cols[j])
    ensures FirstBlank(row, cols) == FirstBlank(other, cols)
  {
    if cols != [] {
      FirstBlankAgree(row, other, cols[1..]);
    }
  }

  /** Extra columns, and the cells in them, never change the outcome of a row. */
  lemma ExtraColumnsIgnored(row: Row, other: Row, number: nat)
    requires AgreeOnRequired(row, other)
    ensures ValidateRow(row, number) == ValidateRow(other, number)
  {
    FirstMissingAgree(row, other, Required);
    if FirstMissing(row, Required) == |Required| {
      FirstBlankAgree(row, other, Required);
    }
  }

  /** The outcome of checking one row. */
  type Check = Result<Clip, RowError>

  /** The outcome of every data row, in manifest order; the row at 0-based
      position k is checked under the number k + 2. */
  function Checks(rows: seq<Row>): seq<Check> {
    ChecksFrom(rows, 0)
  }

  /** The outcomes of the rows from 0-based position `k` on. */
  function ChecksFrom(rows: seq<Row>, k: nat): (checks: seq<Check>)
    requires k <= |rows|
    ensures |checks| == |rows| - k
    decreases |rows| - k
  {
    if k == |rows| then [] else [ValidateRow(rows[k], RowNumber(k))] + ChecksFrom(rows, k + 1)
  }

  /** The outcome at position j is that of row j checked as row number j + 2. */
  lemma {:induction false} ChecksFromAt(rows: seq<Row>, k: nat, j: nat)
    requires k <= j < |rows|
    ensures ChecksFrom(rows, k)[j - k] == ValidateRow(rows[j], j + 2)
    decreases j - k
  {
    if k < j {
      ChecksFromAt(rows, k + 1, j);
    }
  }

  /** Every outcome of Checks is that of its own row, and names that row by
      its spreadsheet number. */
  lemma ChecksAt(rows: seq<Row>, j: nat)
    requires j < |rows|
    ensures |Checks(rows)| == |rows|
    ensures Checks(rows)[j] == ValidateRow(rows[j], j + 2)
    ensures Checks(rows)[j].Err? ==> Checks(rows)[j].error.row == j + 2
  {
    ChecksFromAt(rows, 0, j);
  }

  /** What checking the whole manifest produces: the clips of the rows before
      the first refused row, and that row's error if there is one. */
  datatype Report = Report(clips: seq<Clip>, failure: Option<RowError>)

  function Prepend(clips: seq<Clip>, report: Report): Report {
    Report(clips + report.clips, report.failure)
  }

  /** Going through the row outcomes from position `k` on, stopping at the
      first refused row. */
  function ValidateFrom(checks: seq<Check>, k: nat): (v: Report)
    requires k <= |checks|
    ensures |v.clips| <= |checks| - k
    ensures v.failure.None? ==> |v.clips| == |checks| - k
    decreases |checks| - k
  {
    if k == |checks| then Report([], None)
    else match checks[k]
      case Err(e) => Report([], Some(e))
      case Ok(c) => Prepend([c], ValidateFrom(checks, k + 1))
  }

  /** Checking a whole manifest. */
  function Validate(rows: seq<Row>): Report {
    ValidateFrom(Checks(rows), 0)
  }

  /** With no refused row, every row gives its clip, in manifest order. */
  lemma {:induction false} ValidateAllValid(checks: seq<Check>, k: nat)
    requires k <= |checks|
    ensures ValidateFrom(checks, k).failure.None? <==> forall j :: k <= j < |checks| ==> checks[j].Ok?
    ensures ValidateFrom(checks, k).failure.None? ==>
              forall j :: k <= j < |checks| ==> ValidateFrom(checks, k).clips[j - k] == checks[j].value
    decreases |checks| - k
  {
    if k < |checks| {
      ValidateAllValid(checks, k + 1);
    }
  }

  /** If row j is the first refused row, checking yields exactly the clips of
      the rows before it, in order, and then reports row j's error. */
  lemma {:induction false} ValidateFirstInvalid(checks: seq<Check>, k: nat, j: nat)
    requires k <= j < |checks|
    requires forall i :: k <= i < j ==> checks[i].Ok?
    requires checks[j].Err?
    ensures ValidateFrom(checks, k).failure == Some(checks[j].error)
    ensures |ValidateFrom(checks, k).clips| == j - k
    ensures forall i :: k <= i < j ==> ValidateFrom(checks, k).clips[i - k] == checks[i].value
    decreases j - k
  {
    if k < j {
      ValidateFirstInvalid(checks, k + 1, j);
    }
  }

  /** The outcome of one resumption of the reader. */
  datatype Step = Yielded(clip: Clip) | Exhausted | Failed(error: RowError)

  /** What the reader produces when resumed at position k. */
  function StepAt(checks: seq<Check>, k: nat): Step
    requires k <= |checks|
  {
    if k == |checks| then Exhausted
    else match checks[k]
      case Ok(c) => Yielded(c)
      case Err(e) => Failed(e)
  }

  /** Checking one row the way the reader does: the three lookups, then a loop
      over the three (cell, column) pairs. */
  method CheckRow(row: Row, number: nat) returns (r: Result<Clip, RowError>)
    ensures r == ValidateRow(row, number)
  {
    RequiredInRankOrder();
    FirstMissingRequired(row);
    if StartTime.Key() !in row {
      return Err(MissingColumn(number, StartTime));
    }
    var startTime := row[StartTime.Key()];
    if Duration.Key() !in row {
      return Err(MissingColumn(number, Duration));
    }
    var duration := row[Duration.Key()];
    if Filename.Key() !in row {
      return Err(MissingColumn(number, Filename));
    }
    var filename := row[Filename.Key()];
    FirstBlankRequired(row);
    var pairs := [(startTime, StartTime), (duration, Duration), (filename, Filename)];
    assert forall j :: 0 <= j < |pairs| ==> pairs[j].1 == Required[j] && pairs[j].0 == row[Required[j].Key()];
    for i := 0 to |pairs|
      invariant forall j :: 0 <= j < i ==> pairs[j].0.Some? && pairs[j].0.value != ""
    {
      var (value, column) := pairs[i];
      if value.None? || value.value == "" {
        assert forall j :: 0 <= j < i ==> !Blank(row, Required[j]);
        return Err(EmptyValue(number, column));
      }
    }
    assert pairs[0].0 == startTime && pairs[1].0 == duration && pairs[2].0 == filename;
    return Ok(Clip(startTime.value, duration.value, filename.value));
  }

  /**
   * The reader as a suspended generator: each call of Next resumes it for one
   * row. A refused row ends it (in the program the process exits there); once
   * it has ended, every further call reports that it is exhausted.
   */
  class RowReader {
    const rows: seq<Row>
    var position: nat
    var finished: bool
    ghost var yielded: seq<Clip>
    ghost var failure: Option<RowError>

    /** While it runs, what it has yielded followed by what checking the
        remaining rows produces is what checking the whole manifest produces;
        once it has ended, what it yielded and the error it stopped at are. */
    ghost predicate Valid()
      reads this
    {
      && position <= |rows|
      && (!finished ==> |yielded| == position && Validate(rows) == Prepend(yielded, ValidateFrom(Checks(rows), position)))
      && (finished ==> Validate(rows) == Report(yielded, failure))
    }

    constructor (rows: seq<Row>)
      ensures Valid()
      ensures this.rows == rows && position == 0 && !finished && yielded == []
    {
      this.rows := rows;
      position := 0;
      finished := false;
      yielded := [];
      failure := None;
      assert [] + Validate(rows).clips == Validate(rows).clips;
    }

    method Next() returns (s: Step)
      requires Valid()
      modifies this
      ensures Valid()
      ensures old(finished) ==> s == Exhausted && finished && position == old(position) && yielded == old(yielded)
      ensures !old(finished) ==> s == StepAt(Checks(rows), old(position))
      ensures !old(finished) && old(position) < |rows| ==> position == old(position) + 1
      ensures !old(finished) && old(position) == |rows| ==> position == old(position)
      ensures finished == !s.Yielded?
      ensures s.Yielded? ==> yielded == old(yielded) + [s.clip]
      ensures !s.Yielded? ==> yielded == old(yielded)
      ensures s.Failed? ==> Validate(rows) == Report(yielded, Some(s.error))
      ensures !old(finished) && s.Exhausted? ==> Validate(rows) == Report(yielded, None)
    {
      if finished {
        return Exhausted;
      }
      if position == |rows| {
        finished := true;
        failure := None;
        assert yielded + [] == yielded;
        return Exhausted;
      }
      var r := CheckRow(rows[position], RowNumber(position));
      ChecksAt(rows, position);
      match r
      case Err(e) =>
        position := position + 1;
        finished := true;
        failure := Some(e);
        assert yielded + [] == yielded;
        s := Failed(e);
      case Ok(c) =>
        ghost var rest := ValidateFrom(Checks(rows), position + 1);
        assert yielded + ([c] + rest.clips) == (yielded + [c]) + rest.clips;
        position := position + 1;
        yielded := yielded + [c];
        s := Yielded(c);
    }
  }
}
