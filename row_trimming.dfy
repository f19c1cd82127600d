/**
 * readAllRows: reads rows from a row source until it stops and, when asked to trim,
 * drops the trailing run of empty rows and the columns right of the last non-empty cell.
 * The XLSX and the CSV row sources share it.
 */
module RowTrimming {
  import opened Wrappers
  import opened CellValues
  import JsText

  type Row = seq<Cell>

  /** What a call `readRowAt(i)` of a row source produces: a row, `undefined`, or an exception. */
  datatype RowRead = Got(cells: Row) | EndOfRows | Failed(error: Error)

  function Min(a: int, b: int): int {
    if a <= b then a else b
  }

  /**
   * trimCheck, as the model uses it: a cell is empty when it is `undefined` or, with
   * ignoreRogueSpaces, a string of white space only. Numbers and booleans are never empty
   * (see TrimCheckAsWritten for what the source does with them).
   */
  predicate IsEmptyCell(c: Cell, ignoreRogueSpaces: bool) {
    c.Absent? || (ignoreRogueSpaces && c.Text? && JsText.IsBlank(c.text))
  }

  predicate IsBlankRow(row: Row, ignoreRogueSpaces: bool) {
    forall j :: 0 <= j < |row| ==> IsEmptyCell(row[j], ignoreRogueSpaces)
  }

  /** The index of the last non-empty cell of a row, None for a row of empty cells. */
  function LastFilled(row: Row, ignoreRogueSpaces: bool): (r: Option<nat>)
    ensures r.None? <==> IsBlankRow(row, ignoreRogueSpaces)
    ensures r.Some? ==> r.value < |row| && !IsEmptyCell(row[r.value], ignoreRogueSpaces)
    ensures r.Some? ==> forall j :: r.value < j < |row| ==> IsEmptyCell(row[j], ignoreRogueSpaces)
  {
    if row == [] then None
    else if !IsEmptyCell(row[|row| - 1], ignoreRogueSpaces) then Some(|row| - 1)
    else LastFilled(row[..|row| - 1], ignoreRogueSpaces)
  }

  /**
   * trimCheck as the source writes it: with ignoreRogueSpaces every defined cell other
   * than "" is asked for `cell.trim()`, which raises a TypeError for a number or a boolean.
   */
  function TrimCheckAsWritten(c: Cell, ignoreRogueSpaces: bool): (r: Result<bool, Error>)
    ensures r.Err? <==> ignoreRogueSpaces && (c.Number? || c.Boolean?)
  {
    if c.Absent? then Ok(true)
    else if !ignoreRogueSpaces then Ok(false)
    else match c
      case Text(s) => Ok(s == "" || JsText.Trim(s) == "")
      case _ => Err(TrimOnNonString)
  }

  /** Wherever the written check does not raise, it agrees with IsEmptyCell. */
  lemma TrimCheckAgrees(c: Cell, ignoreRogueSpaces: bool)
    requires TrimCheckAsWritten(c, ignoreRogueSpaces).Ok?
    ensures TrimCheckAsWritten(c, ignoreRogueSpaces).value <==> IsEmptyCell(c, ignoreRogueSpaces)
  {
    if c.Text? {
      JsText.TrimEmptyIffBlank(c.text);
    }
  }

  /**
   * The scan from the right of readAllRows with the written check: the first cell that is
   * not empty, None for an empty row, or the exception the check raised on the way.
   */
  function LastFilledAsWritten(row: Row, ignoreRogueSpaces: bool): (r: Result<Option<nat>, Error>)
    ensures r.Ok? && r.value.Some? ==> r.value.value < |row|
  {
    if row == [] then Ok(None)
    else match TrimCheckAsWritten(row[|row| - 1], ignoreRogueSpaces)
      case Err(e) => Err(e)
      case Ok(isEmpty) =>
        if !isEmpty then Ok(Some(|row| - 1))
        else LastFilledAsWritten(row[..|row| - 1], ignoreRogueSpaces)
  }

  /** When the written scan does not raise, it finds what LastFilled finds. */
  lemma {:induction false} LastFilledAsWrittenAgrees(row: Row, ignoreRogueSpaces: bool)
    requires LastFilledAsWritten(row, ignoreRogueSpaces).Ok?
    ensures LastFilledAsWritten(row, ignoreRogueSpaces).value == LastFilled(row, ignoreRogueSpaces)
  {
    if row != [] {
      TrimCheckAgrees(row[|row| - 1], ignoreRogueSpaces);
      if IsEmptyCell(row[|row| - 1], ignoreRogueSpaces) {
        LastFilledAsWrittenAgrees(row[..|row| - 1], ignoreRogueSpaces);
      }
    }
  }

  /**
   * The written scan raises exactly when, with ignoreRogueSpaces, the last non-empty cell
   * of the row is a number or a boolean: the cells after it pass the check.
   */
  lemma {:induction false} LastFilledAsWrittenRaises(row: Row, ignoreRogueSpaces: bool)
    ensures LastFilledAsWritten(row, ignoreRogueSpaces).Err? <==>
      ignoreRogueSpaces && LastFilled(row, ignoreRogueSpaces).Some?
      && (row[LastFilled(row, ignoreRogueSpaces).value].Number? || row[LastFilled(row, ignoreRogueSpaces).value].Boolean?)
  {
    if row != [] {
      var init := row[..|row| - 1];
      var c := row[|row| - 1];
      if TrimCheckAsWritten(c, ignoreRogueSpaces).Ok? {
        TrimCheckAgrees(c, ignoreRogueSpaces);
        if IsEmptyCell(c, ignoreRogueSpaces) {
          LastFilledAsWrittenRaises(init, ignoreRogueSpaces);
          var f := LastFilled(init, ignoreRogueSpaces);
          assert f.Some? ==> row[f.value] == init[f.value];
        }
      }
    }
  }

  /** The corrected trimCheck is the source's expression, with a `trim` only strings reach. */
  lemma IsEmptyCellIsTrimCheck(c: Cell, ignoreRogueSpaces: bool)
    ensures IsEmptyCell(c, ignoreRogueSpaces) <==>
      c.Absent? || (ignoreRogueSpaces && c.Text? && (c.text == "" || JsText.Trim(c.text) == ""))
  {
    if c.Text? {
      JsText.TrimEmptyIffBlank(c.text);
    }
  }

  /**
   * With trimTable and ignoreRogueSpaces, a row ending in a number makes the written scan
   * raise, while the number is plainly a non-empty cell.
   */
  lemma NumberRowRaisesAsWritten()
    ensures LastFilledAsWritten([Number(1.0)], true) == Err(TrimOnNonString)
    ensures LastFilled([Number(1.0)], true) == Some(0)
  {
  }

  /** The number of rows left once the longest trailing run of blank rows is dropped. */
  function KeptCount(rows: seq<Row>, ignoreRogueSpaces: bool): (n: nat)
    ensures n <= |rows|
  {
    if rows == [] then 0
    else if IsBlankRow(rows[|rows| - 1], ignoreRogueSpaces) then KeptCount(rows[..|rows| - 1], ignoreRogueSpaces)
    else |rows|
  }

  /** The dropped rows are blank, and the run dropped is the longest such. */
  lemma {:induction false} KeptCountDropsBlankSuffix(rows: seq<Row>, ignoreRogueSpaces: bool)
    ensures var n := KeptCount(rows, ignoreRogueSpaces);
      && (forall k :: n <= k < |rows| ==> IsBlankRow(rows[k], ignoreRogueSpaces))
      && (n == 0 || !IsBlankRow(rows[n - 1], ignoreRogueSpaces))
  {
    if rows != [] && IsBlankRow(rows[|rows| - 1], ignoreRogueSpaces) {
      KeptCountDropsBlankSuffix(rows[..|rows| - 1], ignoreRogueSpaces);
    }
  }

  function FilledColumn(row: Row, ignoreRogueSpaces: bool): nat {
    match LastFilled(row, ignoreRogueSpaces)
    case None => 0
    case Some(j) => j
  }

  /**
   * maxWidth: the largest column index holding a non-empty cell in some row, 0 when
   * there is none.
   */
  function MaxFilledColumn(rows: seq<Row>, ignoreRogueSpaces: bool): nat {
    if rows == [] then 0
    else
      var w := MaxFilledColumn(rows[..|rows| - 1], ignoreRogueSpaces);
      var last := FilledColumn(rows[|rows| - 1], ignoreRogueSpaces);
      if last > w then last else w
  }

  /** maxWidth bounds every non-empty cell's column. */
  lemma {:induction false} MaxFilledColumnBounds(rows: seq<Row>, ignoreRogueSpaces: bool, k: nat, j: nat)
    requires k < |rows| && j < |rows[k]| && !IsEmptyCell(rows[k][j], ignoreRogueSpaces)
    ensures j <= MaxFilledColumn(rows, ignoreRogueSpaces)
  {
    if k < |rows| - 1 {
      var init := rows[..|rows| - 1];
      assert init[k] == rows[k];
      MaxFilledColumnBounds(init, ignoreRogueSpaces, k, j);
    }
  }

  /** A positive maxWidth is the column of the last non-empty cell of some row. */
  lemma {:induction false} MaxFilledColumnAttained(rows: seq<Row>, ignoreRogueSpaces: bool)
    ensures var w := MaxFilledColumn(rows, ignoreRogueSpaces);
      w == 0 || exists k :: 0 <= k < |rows| && LastFilled(rows[k], ignoreRogueSpaces) == Some(w)
  {
    if rows != [] {
      var init := rows[..|rows| - 1];
      MaxFilledColumnAttained(init, ignoreRogueSpaces);
      var w := MaxFilledColumn(init, ignoreRogueSpaces);
      if w > 0 && FilledColumn(rows[|rows| - 1], ignoreRogueSpaces) <= w {
        var k :| 0 <= k < |init| && LastFilled(init[k], ignoreRogueSpaces) == Some(w);
        assert rows[k] == init[k];
      }
    }
  }

  /** maxPhysicalWidth: the length of the longest row. */
  function MaxLength(rows: seq<Row>): (m: nat)
    ensures forall k :: 0 <= k < |rows| ==> |rows[k]| <= m
  {
    if rows == [] then 0
    else
      var m := MaxLength(rows[..|rows| - 1]);
      if |rows[|rows| - 1]| > m then |rows[|rows| - 1]| else m
  }

  /** `row.slice(0, width)`. */
  function Slice(row: Row, width: nat): Row {
    row[..Min(|row|, width)]
  }

  /** The table a trimming readAllRows returns for the rows it read. */
  function Trimmed(rows: seq<Row>, ignoreRogueSpaces: bool): (r: seq<Row>)
    // the rows kept are a leading part of the rows, and each is a prefix of its row
    ensures |r| <= |rows|
    ensures forall k :: 0 <= k < |r| ==> r[k] <= rows[k]
  {
    var n := KeptCount(rows, ignoreRogueSpaces);
    var w := MaxFilledColumn(rows, ignoreRogueSpaces) + 1;
    seq(n, k requires 0 <= k < n => Slice(rows[k], w))
  }

  /**
   * Trimming keeps the rows before the longest trailing run of blank rows, so the last
   * kept row is not blank, and slices each kept row to one column past the widest
   * non-empty cell.
   */
  lemma TrimmedShape(rows: seq<Row>, ignoreRogueSpaces: bool)
    ensures var t := Trimmed(rows, ignoreRogueSpaces);
      && |t| <= |rows|
      && (forall k :: |t| <= k < |rows| ==> IsBlankRow(rows[k], ignoreRogueSpaces))
      && (|t| == 0 || !IsBlankRow(rows[|t| - 1], ignoreRogueSpaces))
      && (forall k :: 0 <= k < |t| ==>
            t[k] == rows[k][..Min(|rows[k]|, MaxFilledColumn(rows, ignoreRogueSpaces) + 1)])
  {
    var t := Trimmed(rows, ignoreRogueSpaces);
    assert |t| == KeptCount(rows, ignoreRogueSpaces);
    KeptCountDropsBlankSuffix(rows, ignoreRogueSpaces);
  }

  /** No non-empty cell is removed or changed by trimming. */
  lemma TrimmedKeepsFilledCells(rows: seq<Row>, ignoreRogueSpaces: bool, k: nat, j: nat)
    requires k < |rows| && j < |rows[k]| && !IsEmptyCell(rows[k][j], ignoreRogueSpaces)
    ensures var t := Trimmed(rows, ignoreRogueSpaces);
      k < |t| && j < |t[k]| && t[k][j] == rows[k][j]
  {
    KeptCountDropsBlankSuffix(rows, ignoreRogueSpaces);
    assert !IsBlankRow(rows[k], ignoreRogueSpaces);
    MaxFilledColumnBounds(rows, ignoreRogueSpaces, k, j);
  }

  /** Every cell that trimming removes is empty. */
  lemma TrimmedRemovesOnlyEmptyCells(rows: seq<Row>, ignoreRogueSpaces: bool, k: nat, j: nat)
    requires k < |rows| && j < |rows[k]|
    requires var t := Trimmed(rows, ignoreRogueSpaces); k >= |t| || j >= |t[k]|
    ensures IsEmptyCell(rows[k][j], ignoreRogueSpaces)
  {
    if !IsEmptyCell(rows[k][j], ignoreRogueSpaces) {
      TrimmedKeepsFilledCells(rows, ignoreRogueSpaces, k, j);
    }
  }

  /** A table of blank rows trims to nothing. */
  lemma {:induction false} TrimmedAllBlank(rows: seq<Row>, ignoreRogueSpaces: bool)
    requires forall k :: 0 <= k < |rows| ==> IsBlankRow(rows[k], ignoreRogueSpaces)
    ensures Trimmed(rows, ignoreRogueSpaces) == []
  {
    if rows != [] {
      var init := rows[..|rows| - 1];
      assert forall k :: 0 <= k < |init| ==> init[k] == rows[k];
      TrimmedAllBlank(init, ignoreRogueSpaces);
    }
  }

  /** The last row a trim keeps is not blank, so trimming again keeps every row. */
  lemma KeptCountOfTrimmed(rows: seq<Row>, ignoreRogueSpaces: bool)
    ensures var t := Trimmed(rows, ignoreRogueSpaces); KeptCount(t, ignoreRogueSpaces) == |t|
  {
    var t := Trimmed(rows, ignoreRogueSpaces);
    KeptCountDropsBlankSuffix(rows, ignoreRogueSpaces);
    if |t| > 0 {
      var j :| 0 <= j < |rows[|t| - 1]| && !IsEmptyCell(rows[|t| - 1][j], ignoreRogueSpaces);
      TrimmedKeepsFilledCells(rows, ignoreRogueSpaces, |t| - 1, j);
      assert !IsBlankRow(t[|t| - 1], ignoreRogueSpaces);
    }
  }

  /** Trimming keeps the widest non-empty column where it was. */
  lemma MaxFilledColumnOfTrimmed(rows: seq<Row>, ignoreRogueSpaces: bool)
    ensures MaxFilledColumn(Trimmed(rows, ignoreRogueSpaces), ignoreRogueSpaces) == MaxFilledColumn(rows, ignoreRogueSpaces)
  {
    TrimmedNoWider(rows, ignoreRogueSpaces);
    TrimmedNoNarrower(rows, ignoreRogueSpaces);
  }

  lemma TrimmedNoWider(rows: seq<Row>, ignoreRogueSpaces: bool)
    ensures MaxFilledColumn(Trimmed(rows, ignoreRogueSpaces), ignoreRogueSpaces) <= MaxFilledColumn(rows, ignoreRogueSpaces)
  {
    var t := Trimmed(rows, ignoreRogueSpaces);
    var w' := MaxFilledColumn(t, ignoreRogueSpaces);
    MaxFilledColumnAttained(t, ignoreRogueSpaces);
    if w' > 0 {
      var k :| 0 <= k < |t| && LastFilled(t[k], ignoreRogueSpaces) == Some(w');
      TrimmedShape(rows, ignoreRogueSpaces);
      assert t[k][w'] == rows[k][w'];
      MaxFilledColumnBounds(rows, ignoreRogueSpaces, k, w');
    }
  }

  lemma TrimmedNoNarrower(rows: seq<Row>, ignoreRogueSpaces: bool)
    ensures MaxFilledColumn(rows, ignoreRogueSpaces) <= MaxFilledColumn(Trimmed(rows, ignoreRogueSpaces), ignoreRogueSpaces)
  {
    var t := Trimmed(rows, ignoreRogueSpaces);
    var w := MaxFilledColumn(rows, ignoreRogueSpaces);
    MaxFilledColumnAttained(rows, ignoreRogueSpaces);
    if w > 0 {
      var k :| 0 <= k < |rows| && LastFilled(rows[k], ignoreRogueSpaces) == Some(w);
      TrimmedKeepsFilledCells(rows, ignoreRogueSpaces, k, w);
      MaxFilledColumnBounds(t, ignoreRogueSpaces, k, w);
    }
  }

  /** Trimming a trimmed table changes nothing. */
  lemma TrimmedIdempotent(rows: seq<Row>, ignoreRogueSpaces: bool)
    ensures Trimmed(Trimmed(rows, ignoreRogueSpaces), ignoreRogueSpaces) == Trimmed(rows, ignoreRogueSpaces)
  {
    var t := Trimmed(rows, ignoreRogueSpaces);
    KeptCountOfTrimmed(rows, ignoreRogueSpaces);
    MaxFilledColumnOfTrimmed(rows, ignoreRogueSpaces);
    var t2 := Trimmed(t, ignoreRogueSpaces);
    forall k | 0 <= k < |t|
      ensures t2[k] == t[k]
    {
    }
  }

  /** The first index at which the source does not give a row. */
  function FirstStopFrom(source: nat -> RowRead, i: nat, bound: nat): (n: nat)
    requires i <= bound && !source(bound).Got?
    requires forall k :: 0 <= k < i ==> source(k).Got?
    ensures !source(n).Got? && forall k :: 0 <= k < n ==> source(k).Got?
    decreases bound - i
  {
    if !source(i).Got? then i else FirstStopFrom(source, i + 1, bound)
  }

  /** The source eventually stops giving rows (otherwise readAllRows loops forever). */
  ghost predicate Stops(source: nat -> RowRead) {
    exists n: nat :: !source(n).Got?
  }

  ghost function FirstStop(source: nat -> RowRead): (n: nat)
    requires Stops(source)
    ensures !source(n).Got? && forall k :: 0 <= k < n ==> source(k).Got?
  {
    var bound: nat :| !source(bound).Got?;
    FirstStopFrom(source, 0, bound)
  }

  /** The rows the source gives at indices 0 to n - 1. */
  function RowsBefore(source: nat -> RowRead, n: nat): (rows: seq<Row>)
    requires forall k :: 0 <= k < n ==> source(k).Got?
    ensures |rows| == n && forall k :: 0 <= k < n ==> rows[k] == source(k).cells
  {
    if n == 0 then [] else RowsBefore(source, n - 1) + [source(n - 1).cells]
  }

  /** The rows read before the source stops. */
  ghost function RowsRead(source: nat -> RowRead): seq<Row>
    requires Stops(source)
  {
    RowsBefore(source, FirstStop(source))
  }

  /**
   * What readAllRows returns: the exception of the source if it raised one before it ran
   * out of rows, otherwise the rows read, trimmed when trimTable is set.
   */
  ghost function TableOf(source: nat -> RowRead, trimTable: bool, ignoreRogueSpaces: bool): (r: Result<seq<Row>, Error>)
    requires Stops(source)
    // the table raises exactly when the source's first falsy answer is an exception
    ensures r.Err? <==> source(FirstStop(source)).Failed?
    // otherwise every row returned is a prefix of the row read at its index
    ensures r.Ok? ==> |r.value| <= |RowsRead(source)|
    ensures r.Ok? ==> forall k :: 0 <= k < |r.value| ==> r.value[k] <= RowsRead(source)[k]
  {
    var stop := source(FirstStop(source));
    if stop.Failed? then Err(stop.error)
    else if trimTable then Ok(Trimmed(RowsRead(source), ignoreRogueSpaces))
    else Ok(RowsRead(source))
  }

  /** Without trimming readAllRows returns exactly the rows read, in order. */
  lemma UntrimmedIsRowsRead(source: nat -> RowRead, ignoreRogueSpaces: bool)
    requires Stops(source)
    requires source(FirstStop(source)) == EndOfRows
    ensures var r := TableOf(source, false, ignoreRogueSpaces);
      r.Ok? && |r.value| == FirstStop(source) && forall k :: 0 <= k < |r.value| ==> source(k) == Got(r.value[k])
  {
  }

  /** A source that gives exactly the given rows and then `undefined` reads as those rows. */
  lemma TableOfRows(source: nat -> RowRead, rows: seq<Row>, ignoreRogueSpaces: bool)
    requires forall k :: 0 <= k < |rows| ==> source(k) == Got(rows[k])
    requires source(|rows|) == EndOfRows
    ensures Stops(source)
    ensures TableOf(source, false, ignoreRogueSpaces) == Ok(rows)
  {
    assert !source(|rows|).Got?;
    var n := FirstStop(source);
    assert n == |rows|;
    assert RowsBefore(source, n) == rows;
  }

  /** The index of the last non-empty cell, found by the scan from the right of readAllRows. */
  method ScanRow(row: Row, ignoreRogueSpaces: bool) returns (empty: bool, last: int)
    ensures empty <==> LastFilled(row, ignoreRogueSpaces).None?
    ensures !empty ==> last == LastFilled(row, ignoreRogueSpaces).value
  {
    empty := true;
    last := |row| - 1;
    while last >= 0
      invariant -1 <= last < |row|
      invariant forall k :: last < k < |row| ==> IsEmptyCell(row[k], ignoreRogueSpaces)
    {
      if !IsEmptyCell(row[last], ignoreRogueSpaces) {
        empty := false;
        break;
      }
      last := last - 1;
    }
  }

  /** Where the trailing run of blank rows starts, None when the last row is not blank. */
  function EmptyStart(rows: seq<Row>, ignoreRogueSpaces: bool): Option<nat> {
    var n := KeptCount(rows, ignoreRogueSpaces);
    if n == |rows| then None else Some(n)
  }

  /** How the quantities readAllRows tracks change when one more row is read. */
  lemma Extend(rows: seq<Row>, row: Row, ignoreRogueSpaces: bool)
    ensures EmptyStart(rows + [row], ignoreRogueSpaces) ==
      if !IsBlankRow(row, ignoreRogueSpaces) then None
      else if EmptyStart(rows, ignoreRogueSpaces).None? then Some(|rows|)
      else EmptyStart(rows, ignoreRogueSpaces)
    ensures MaxFilledColumn(rows + [row], ignoreRogueSpaces) ==
      var w := MaxFilledColumn(rows, ignoreRogueSpaces);
      var last := FilledColumn(row, ignoreRogueSpaces);
      if last > w then last else w
    ensures MaxLength(rows + [row]) == if |row| > MaxLength(rows) then |row| else MaxLength(rows)
  {
    assert (rows + [row])[..|rows|] == rows;
  }

  /** What readAllRows has tracked about the rows read so far. */
  predicate Tracked(rows: seq<Row>, ignoreRogueSpaces: bool, emptyStartedAt: Option<nat>, maxWidth: nat, maxPhysicalWidth: nat) {
    && emptyStartedAt == EmptyStart(rows, ignoreRogueSpaces)
    && maxWidth == MaxFilledColumn(rows, ignoreRogueSpaces)
    && maxPhysicalWidth == MaxLength(rows)
  }

  /** The bookkeeping readAllRows does for one more row, when it trims. */
  method TrackRow(rows: seq<Row>, row: Row, ignoreRogueSpaces: bool, emptyStartedAt: Option<nat>, maxWidth: nat, maxPhysicalWidth: nat)
    returns (emptyStartedAt': Option<nat>, maxWidth': nat, maxPhysicalWidth': nat)
    requires Tracked(rows, ignoreRogueSpaces, emptyStartedAt, maxWidth, maxPhysicalWidth)
    ensures Tracked(rows + [row], ignoreRogueSpaces, emptyStartedAt', maxWidth', maxPhysicalWidth')
  {
    Extend(rows, row, ignoreRogueSpaces);
    maxPhysicalWidth' := maxPhysicalWidth;
    if |row| > maxPhysicalWidth {
      maxPhysicalWidth' := |row|;
    }
    var empty, j := ScanRow(row, ignoreRogueSpaces);
    maxWidth' := maxWidth;
    if !empty && j > maxWidth {
      maxWidth' := j;
    }
    emptyStartedAt' := emptyStartedAt;
    if empty {
      if emptyStartedAt == None {
        emptyStartedAt' := Some(|rows|);
      }
    } else {
      emptyStartedAt' := None;
    }
  }

  /** The trimming phase of readAllRows, from what the reading phase tracked. */
  method TrimRows(all: seq<Row>, ignoreRogueSpaces: bool, emptyStartedAt: Option<nat>, maxWidth: nat, maxPhysicalWidth: nat)
    returns (rows: seq<Row>)
    requires Tracked(all, ignoreRogueSpaces, emptyStartedAt, maxWidth, maxPhysicalWidth)
    ensures rows == Trimmed(all, ignoreRogueSpaces)
  {
    var n := KeptCount(all, ignoreRogueSpaces);
    rows := all;
    if emptyStartedAt.Some? {
      rows := rows[..emptyStartedAt.value];
    }
    if maxWidth < maxPhysicalWidth {
      var k := 0;
      while k < |rows|
        invariant 0 <= k <= |rows| == n
        invariant forall m :: 0 <= m < k ==> rows[m] == Slice(all[m], maxWidth + 1)
        invariant forall m :: k <= m < n ==> rows[m] == all[m]
      {
        rows := rows[k := Slice(rows[k], maxWidth + 1)];
        k := k + 1;
      }
    } else {
      forall m | 0 <= m < n
        ensures rows[m] == Slice(all[m], maxWidth + 1)
      {
        assert |all[m]| <= maxPhysicalWidth;
      }
    }
  }

  /**
   * readAllRows(readRowAt, trimTable, ignoreRogueSpaces): reads rows 0, 1, ... until the
   * source stops, tracking while it reads where the trailing run of empty rows started
   * (emptyStartedAt), the widest non-empty column (maxWidth) and the longest row
   * (maxPhysicalWidth); then drops that run and slices every row to maxWidth + 1.
   */
  method ReadAllRows(source: nat -> RowRead, trimTable: bool, ignoreRogueSpaces: bool)
    returns (r: Result<seq<Row>, Error>)
    requires Stops(source)
    ensures r == TableOf(source, trimTable, ignoreRogueSpaces)
  {
    var rows: seq<Row> := [];
    var i: nat := 0;
    var emptyStartedAt: Option<nat> := None;
    var maxWidth: nat := 0;
    var maxPhysicalWidth: nat := 0;
    ghost var bound: nat :| !source(bound).Got?;
    while true
      invariant i <= bound
      invariant forall k :: 0 <= k < i ==> source(k).Got?
      invariant rows == RowsBefore(source, i)
      invariant trimTable ==> Tracked(rows, ignoreRogueSpaces, emptyStartedAt, maxWidth, maxPhysicalWidth)
      decreases bound - i
    {
      var row := source(i);
      if row.Failed? {
        assert i == FirstStop(source);
        return Err(row.error);
      }
      if row.EndOfRows? {
        break;
      }
      if trimTable {
        emptyStartedAt, maxWidth, maxPhysicalWidth :=
          TrackRow(rows, row.cells, ignoreRogueSpaces, emptyStartedAt, maxWidth, maxPhysicalWidth);
      }
      rows := rows + [row.cells];
      i := i + 1;
    }
    assert i == FirstStop(source);
    if trimTable {
      rows := TrimRows(rows, ignoreRogueSpaces, emptyStartedAt, maxWidth, maxPhysicalWidth);
    }
    r := Ok(rows);
  }

  /** Three rows of which the last is empty trim to the first two. */
  lemma TrailingEmptyRowExample()
    ensures |Trimmed([[Text("a")], [Text("b")], [Absent, Absent]], false)| == 2
  {
    var rows: seq<Row> := [[Text("a")], [Text("b")], [Absent, Absent]];
    assert IsBlankRow(rows[2], false);
    assert !IsBlankRow(rows[1], false) by { assert !IsEmptyCell(rows[1][0], false); }
    assert rows[..2] == [[Text("a")], [Text("b")]];
    assert KeptCount(rows, false) == 2;
  }

  /** Rows of lengths 5, 3 and 5 whose widest non-empty cell is in column 2 are cut to 3 columns. */
  lemma NarrowColumnsExample(x: Cell)
    requires !IsEmptyCell(x, false)
    ensures var rows := [[x, Absent, x, Absent, Absent], [x, x, Absent], [Absent, x, x, Absent, Absent]];
      var t := Trimmed(rows, false);
      |t| == 3 && forall k :: 0 <= k < 3 ==> |t[k]| == 3
  {
    var a: Row := [x, Absent, x, Absent, Absent];
    var b: Row := [x, x, Absent];
    var c: Row := [Absent, x, x, Absent, Absent];
    assert a[..4] == [x, Absent, x, Absent] && a[..4][..3] == [x, Absent, x];
    assert LastFilled(a[..4][..3], false) == Some(2);
    assert LastFilled(a, false) == Some(2);
    assert b[..2] == [x, x];
    assert LastFilled(b, false) == Some(1);
    assert c[..4] == [Absent, x, x, Absent] && c[..4][..3] == [Absent, x, x];
    assert LastFilled(c[..4][..3], false) == Some(2);
    assert LastFilled(c, false) == Some(2);
    var rows: seq<Row> := [a, b, c];
    assert rows[..2] == [a, b] && rows[..2][..1] == [a] && rows[..2][..1][..0] == [];
    assert MaxFilledColumn([a], false) == 2;
    assert MaxFilledColumn([a, b], false) == 2;
    assert MaxFilledColumn(rows, false) == 2;
    assert KeptCount(rows, false) == 3;
  }
}
