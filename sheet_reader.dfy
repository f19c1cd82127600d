/**
 * XlsxSheetXmlReader: one worksheet, read row by row. A row of the sheet is the list of
 * its `c` elements; readRowAt turns it into a dense array indexed by column, with
 * `undefined` in the gaps.
 */
module SheetReader {
  import opened Wrappers
  import opened CellValues
  import opened RowTrimming
  import JsText
  import CellAddress

  /** A `row` element of sheetData: its `r` attribute (None when absent) and its `c` children. */
  datatype RowRecord = RowRecord(number: Option<string>, cells: seq<CellRecord>)

  /** `sheetData>row[r="number"]`: the first row element whose `r` attribute is number. */
  function FindRow(rows: seq<RowRecord>, number: string): (r: Option<nat>)
    ensures r.Some? ==> r.value < |rows| && rows[r.value].number == Some(number)
    ensures r.Some? ==> forall k :: 0 <= k < r.value ==> rows[k].number != Some(number)
    ensures r.None? ==> forall k :: 0 <= k < |rows| ==> rows[k].number != Some(number)
  {
    if rows == [] then None
    else if rows[0].number == Some(number) then Some(0)
    else match FindRow(rows[1..], number)
      case None => None
      case Some(k) => Some(k + 1)
  }

  /** The column a cell reference names: cellLetterToIndex of its letter part. */
  function ReferenceColumn(reference: string): int {
    CellAddress.ColumnIndex(CellAddress.LetterPrefix(reference))
  }

  /**
   * One step of readRowAt: pad the row with `undefined` up to the cell's column when the
   * row is shorter, then push the value. A column at or left of the row's end pads nothing.
   */
  function Place(acc: Row, column: int, v: Cell): (r: Row)
    ensures |r| == (if column > |acc| then column else |acc|) + 1
    ensures r[..|acc|] == acc && r[|r| - 1] == v
    ensures forall k :: |acc| <= k < |r| - 1 ==> r[k] == Absent
  {
    acc + seq(if column > |acc| then column - |acc| else 0, _ => Absent) + [v]
  }

  /** The cell makes readRowAt raise: its value raises, or it has no `r` attribute. */
  predicate Fails(cell: CellRecord, table: seq<string>, parseFloat: string -> Option<real>) {
    InterpretCell(cell, table, parseFloat).Err? || cell.reference.None?
  }

  /**
   * The row readRowAt builds from the `c` elements of a row, in document order, or the
   * exception it raises.
   */
  function DenseRow(cells: seq<CellRecord>, table: seq<string>, parseFloat: string -> Option<real>): (r: Result<Row, Error>)
    ensures r.Ok? ==> |r.value| >= |cells|
  {
    if cells == [] then Ok([])
    else AddCell(DenseRow(cells[..|cells| - 1], table, parseFloat), cells[|cells| - 1], table, parseFloat)
  }

  /**
   * One iteration of readRowAt's loop. interpretCell runs before the `r` attribute is
   * read, so a cell whose value raises reports that error even when it has no reference
   * either.
   */
  function AddCell(acc: Result<Row, Error>, cell: CellRecord, table: seq<string>, parseFloat: string -> Option<real>): (r: Result<Row, Error>)
    ensures acc.Err? ==> r == acc
    ensures r.Ok? ==> acc.Ok? && |r.value| > |acc.value| && r.value[..|acc.value|] == acc.value
  {
    match acc
    case Err(e) => Err(e)
    case Ok(row) =>
      match InterpretCell(cell, table, parseFloat)
      case Err(e) => Err(e)
      case Ok(v) =>
        match cell.reference
        case None => Err(CellReferenceMissing)
        case Some(reference) => Ok(Place(row, ReferenceColumn(reference), v))
  }

  /**
   * readRowAt(i): the row whose `r` attribute is the decimal text of i + 1; `undefined`
   * when there is none.
   */
  function RowAt(rows: seq<RowRecord>, table: seq<string>, parseFloat: string -> Option<real>, i: nat): (r: RowRead)
    ensures r.EndOfRows? <==> forall k :: 0 <= k < |rows| ==> rows[k].number != Some(JsText.Decimal(i + 1))
  {
    match FindRow(rows, JsText.Decimal(i + 1))
    case None => EndOfRows
    case Some(k) =>
      match DenseRow(rows[k].cells, table, parseFloat)
      case Ok(row) => Got(row)
      case Err(e) => Failed(e)
  }

  /** The row read from one more cell. */
  lemma DenseRowSnoc(cells: seq<CellRecord>, j: nat, table: seq<string>, parseFloat: string -> Option<real>)
    requires j < |cells|
    ensures DenseRow(cells[..j + 1], table, parseFloat) == AddCell(DenseRow(cells[..j], table, parseFloat), cells[j], table, parseFloat)
  {
    assert cells[..j + 1][..j] == cells[..j];
  }

  /** Once a prefix of the cells makes readRowAt raise, the whole row raises the same. */
  lemma {:induction false} DenseRowErrSticks(cells: seq<CellRecord>, table: seq<string>, parseFloat: string -> Option<real>, n: nat)
    requires n <= |cells| && DenseRow(cells[..n], table, parseFloat).Err?
    ensures DenseRow(cells, table, parseFloat) == DenseRow(cells[..n], table, parseFloat)
    decreases |cells| - n
  {
    if n < |cells| {
      DenseRowSnoc(cells, n, table, parseFloat);
      DenseRowErrSticks(cells, table, parseFloat, n + 1);
    } else {
      assert cells[..n] == cells;
    }
  }

  /** readRowAt raises exactly when some cell fails. */
  lemma {:induction false} DenseRowFails(cells: seq<CellRecord>, table: seq<string>, parseFloat: string -> Option<real>)
    ensures DenseRow(cells, table, parseFloat).Err? <==> exists j :: 0 <= j < |cells| && Fails(cells[j], table, parseFloat)
  {
    if cells != [] {
      var init := cells[..|cells| - 1];
      var last := cells[|cells| - 1];
      DenseRowFails(init, table, parseFloat);
      assert DenseRow(cells, table, parseFloat).Err? <==>
        DenseRow(init, table, parseFloat).Err? || Fails(last, table, parseFloat);
      if DenseRow(init, table, parseFloat).Err? {
        var j :| 0 <= j < |init| && Fails(init[j], table, parseFloat);
        assert cells[j] == init[j];
      } else {
        assert forall j :: 0 <= j < |init| ==> cells[j] == init[j];
      }
    }
  }

  /** The exception a failing cell raises: its value's, else the missing reference's. */
  function CellError(cell: CellRecord, table: seq<string>, parseFloat: string -> Option<real>): Error
    requires Fails(cell, table, parseFloat)
  {
    match InterpretCell(cell, table, parseFloat)
    case Err(e) => e
    case Ok(_) => CellReferenceMissing
  }

  /** When readRowAt raises, it raises the error of the first cell that fails. */
  lemma {:induction false} DenseRowFirstFailure(cells: seq<CellRecord>, table: seq<string>, parseFloat: string -> Option<real>)
    requires DenseRow(cells, table, parseFloat).Err?
    ensures exists j :: (0 <= j < |cells| && Fails(cells[j], table, parseFloat)
                         && (forall m :: 0 <= m < j ==> !Fails(cells[m], table, parseFloat))
                         && DenseRow(cells, table, parseFloat).error == CellError(cells[j], table, parseFloat))
  {
    var init := cells[..|cells| - 1];
    var last := cells[|cells| - 1];
    if DenseRow(init, table, parseFloat).Err? {
      DenseRowFirstFailure(init, table, parseFloat);
      var j :| 0 <= j < |init| && Fails(init[j], table, parseFloat)
        && (forall m :: 0 <= m < j ==> !Fails(init[m], table, parseFloat))
        && DenseRow(init, table, parseFloat).error == CellError(init[j], table, parseFloat);
      assert forall m :: 0 <= m <= j ==> cells[m] == init[m];
    } else {
      DenseRowFails(init, table, parseFloat);
      assert forall m :: 0 <= m < |init| ==> cells[m] == init[m];
      assert Fails(last, table, parseFloat);
    }
  }

  /** The column a cell's reference names. */
  function Column(cell: CellRecord): int
    requires cell.reference.Some?
  {
    ReferenceColumn(cell.reference.value)
  }

  /** The cells name strictly increasing, non-negative columns, as the XLSX writers emit them. */
  predicate InColumnOrder(cells: seq<CellRecord>) {
    && (forall j :: 0 <= j < |cells| ==> cells[j].reference.Some? && Column(cells[j]) >= 0)
    && (forall i, j :: 0 <= i < j < |cells| ==> Column(cells[i]) < Column(cells[j]))
  }

  predicate ValuesOk(cells: seq<CellRecord>, table: seq<string>, parseFloat: string -> Option<real>) {
    forall j :: 0 <= j < |cells| ==> InterpretCell(cells[j], table, parseFloat).Ok?
  }

  /**
   * Each value of the cells sits at its column, every other slot is `undefined`, and the
   * row ends at the last column.
   */
  predicate Placed(row: Row, cells: seq<CellRecord>, table: seq<string>, parseFloat: string -> Option<real>)
    requires InColumnOrder(cells) && ValuesOk(cells, table, parseFloat)
  {
    && |row| == (if cells == [] then 0 else Column(cells[|cells| - 1]) + 1)
    && (forall j :: 0 <= j < |cells| ==> row[Column(cells[j])] == InterpretCell(cells[j], table, parseFloat).value)
    && (forall p :: 0 <= p < |row| && (forall j :: 0 <= j < |cells| ==> Column(cells[j]) != p) ==> row[p] == Absent)
  }

  /**
   * For cells in column order whose values do not raise, readRowAt puts each value at the
   * column its reference names, `undefined` everywhere else, and ends at the last column.
   */
  lemma {:induction false} DenseRowPlacesCells(cells: seq<CellRecord>, table: seq<string>, parseFloat: string -> Option<real>)
    requires InColumnOrder(cells) && ValuesOk(cells, table, parseFloat)
    ensures DenseRow(cells, table, parseFloat).Ok?
    ensures Placed(DenseRow(cells, table, parseFloat).value, cells, table, parseFloat)
  {
    if cells != [] {
      var init := cells[..|cells| - 1];
      assert forall j :: 0 <= j < |init| ==> init[j] == cells[j];
      DenseRowPlacesCells(init, table, parseFloat);
      PlaceStep(cells, DenseRow(init, table, parseFloat).value, table, parseFloat);
    }
  }

  /**
   * In any cell order, a row that does not raise has a slot at every column a reference
   * names: the padding reaches the column and the push goes past it, and nothing shrinks.
   */
  lemma {:induction false} DenseRowCoversColumns(cells: seq<CellRecord>, table: seq<string>, parseFloat: string -> Option<real>)
    requires DenseRow(cells, table, parseFloat).Ok?
    ensures forall j :: 0 <= j < |cells| ==>
      cells[j].reference.Some? && Column(cells[j]) < |DenseRow(cells, table, parseFloat).value|
  {
    if cells != [] {
      var init := cells[..|cells| - 1];
      assert DenseRow(init, table, parseFloat).Ok?;
      DenseRowCoversColumns(init, table, parseFloat);
      forall j | 0 <= j < |init|
        ensures cells[j] == init[j]
      {
      }
    }
  }

  /** Placing one more cell to the right of the others keeps every cell in its place. */
  lemma PlaceStep(cells: seq<CellRecord>, acc: Row, table: seq<string>, parseFloat: string -> Option<real>)
    requires |cells| >= 1 && InColumnOrder(cells) && ValuesOk(cells, table, parseFloat)
    requires InColumnOrder(cells[..|cells| - 1]) && ValuesOk(cells[..|cells| - 1], table, parseFloat)
    requires Placed(acc, cells[..|cells| - 1], table, parseFloat)
    ensures var last := cells[|cells| - 1];
      Placed(Place(acc, Column(last), InterpretCell(last, table, parseFloat).value), cells, table, parseFloat)
  {
    var init := cells[..|cells| - 1];
    var c := Column(cells[|cells| - 1]);
    assert init != [] ==> Column(init[|init| - 1]) < c;
    assert |acc| <= c;
    PlaceStepValues(cells, acc, table, parseFloat);
    PlaceStepGaps(cells, acc, table, parseFloat);
  }

  lemma PlaceStepValues(cells: seq<CellRecord>, acc: Row, table: seq<string>, parseFloat: string -> Option<real>)
    requires |cells| >= 1 && InColumnOrder(cells) && ValuesOk(cells, table, parseFloat)
    requires InColumnOrder(cells[..|cells| - 1]) && ValuesOk(cells[..|cells| - 1], table, parseFloat)
    requires Placed(acc, cells[..|cells| - 1], table, parseFloat)
    requires |acc| <= Column(cells[|cells| - 1])
    ensures var last := cells[|cells| - 1];
      var row := Place(acc, Column(last), InterpretCell(last, table, parseFloat).value);
      forall j :: 0 <= j < |cells| ==> row[Column(cells[j])] == InterpretCell(cells[j], table, parseFloat).value
  {
    var init := cells[..|cells| - 1];
    var last := cells[|cells| - 1];
    var row := Place(acc, Column(last), InterpretCell(last, table, parseFloat).value);
    forall j | 0 <= j < |cells|
      ensures row[Column(cells[j])] == InterpretCell(cells[j], table, parseFloat).value
    {
      if j < |init| {
        assert init[j] == cells[j];
        assert Column(init[j]) < |acc|;
        assert row[Column(cells[j])] == acc[Column(init[j])];
      }
    }
  }

  lemma PlaceStepGaps(cells: seq<CellRecord>, acc: Row, table: seq<string>, parseFloat: string -> Option<real>)
    requires |cells| >= 1 && InColumnOrder(cells) && ValuesOk(cells, table, parseFloat)
    requires InColumnOrder(cells[..|cells| - 1]) && ValuesOk(cells[..|cells| - 1], table, parseFloat)
    requires Placed(acc, cells[..|cells| - 1], table, parseFloat)
    requires |acc| <= Column(cells[|cells| - 1])
    ensures var last := cells[|cells| - 1];
      var row := Place(acc, Column(last), InterpretCell(last, table, parseFloat).value);
      forall p :: 0 <= p < |row| && (forall j :: 0 <= j < |cells| ==> Column(cells[j]) != p) ==> row[p] == Absent
  {
    var init := cells[..|cells| - 1];
    var last := cells[|cells| - 1];
    var c := Column(last);
    var row := Place(acc, c, InterpretCell(last, table, parseFloat).value);
    forall p | 0 <= p < |row| && (forall j :: 0 <= j < |cells| ==> Column(cells[j]) != p)
      ensures row[p] == Absent
    {
      if p < |acc| {
        forall j | 0 <= j < |init| ensures Column(init[j]) != p {
          assert init[j] == cells[j];
        }
        assert row[p] == acc[p];
      } else {
        assert p != c;
      }
    }
  }

  /** A row that is not present reads as `undefined`; the first of two rows with one number wins. */
  lemma RowAtFindsFirst(rows: seq<RowRecord>, table: seq<string>, parseFloat: string -> Option<real>, i: nat, k: nat)
    requires k < |rows| && rows[k].number == Some(JsText.Decimal(i + 1))
    requires forall m :: 0 <= m < k ==> rows[m].number != Some(JsText.Decimal(i + 1))
    ensures RowAt(rows, table, parseFloat, i) ==
      match DenseRow(rows[k].cells, table, parseFloat)
      case Ok(row) => Got(row)
      case Err(e) => Failed(e)
  {
    var f := FindRow(rows, JsText.Decimal(i + 1));
    assert f.Some?;
    assert !(f.value < k);
  }

  /** The row source readAllRows reads a sheet through. */
  function SheetSource(rows: seq<RowRecord>, table: seq<string>, parseFloat: string -> Option<real>): nat -> RowRead {
    (i: nat) => RowAt(rows, table, parseFloat, i)
  }

  /** The longest `r` attribute of the rows. */
  function LongestNumber(rows: seq<RowRecord>): (n: nat)
    ensures forall k :: 0 <= k < |rows| && rows[k].number.Some? ==> |rows[k].number.value| <= n
  {
    if rows == [] then 0
    else
      var n := LongestNumber(rows[1..]);
      var here := if rows[0].number.Some? then |rows[0].number.value| else 0;
      if here > n then here else n
  }

  /** A sheet has finitely many rows, so readRowAt eventually answers `undefined`. */
  lemma SheetStops(rows: seq<RowRecord>, table: seq<string>, parseFloat: string -> Option<real>)
    ensures Stops(SheetSource(rows, table, parseFloat))
  {
    var len := LongestNumber(rows);
    var n := JsText.Pow10(len);
    JsText.DecimalLength(n, len);
    var i: nat := n - 1;
    assert !SheetSource(rows, table, parseFloat)(i).Got?;
  }

  /** A gap in the row numbers ends the table: no row after it is read. */
  lemma MissingRowEndsTable(rows: seq<RowRecord>, table: seq<string>, parseFloat: string -> Option<real>, i: nat)
    requires forall k :: 0 <= k < |rows| ==> rows[k].number != Some(JsText.Decimal(i + 1))
    ensures Stops(SheetSource(rows, table, parseFloat))
    ensures FirstStop(SheetSource(rows, table, parseFloat)) <= i
  {
    SheetStops(rows, table, parseFloat);
    assert !SheetSource(rows, table, parseFloat)(i).Got?;
  }

  /** A worksheet with its shared-string table; parseFloat is the number parser the reader uses. */
  class XlsxSheetReader {
    const sheetData: seq<RowRecord>
    const sharedStrings: seq<string>
    const parseFloat: string -> Option<real>

    constructor(sheetData: seq<RowRecord>, sharedStrings: seq<string>, parseFloat: string -> Option<real>)
      ensures this.sheetData == sheetData && this.sharedStrings == sharedStrings && this.parseFloat == parseFloat
    {
      this.sheetData := sheetData;
      this.sharedStrings := sharedStrings;
      this.parseFloat := parseFloat;
    }

    /** readRowAt(i): the cells of row i + 1 interpreted, each pushed at its column. */
    method ReadRowAt(i: nat) returns (r: RowRead)
      ensures r == RowAt(sheetData, sharedStrings, parseFloat, i)
    {
      var found := FindRow(sheetData, JsText.Decimal(i + 1));
      if found.None? {
        return EndOfRows;
      }
      var cells := sheetData[found.value].cells;
      var rowArray: Row := [];
      var j := 0;
      while j < |cells|
        invariant 0 <= j <= |cells|
        invariant DenseRow(cells[..j], sharedStrings, parseFloat) == Ok(rowArray)
      {
        var next := ReadCell(rowArray, cells[j]);
        DenseRowSnoc(cells, j, sharedStrings, parseFloat);
        if next.Err? {
          DenseRowErrSticks(cells, sharedStrings, parseFloat, j + 1);
          return Failed(next.error);
        }
        rowArray := next.value;
        j := j + 1;
      }
      assert cells[..j] == cells;
      r := Got(rowArray);
    }

    /**
     * One iteration of readRowAt's loop: interpret the cell, find its column from the
     * letters of its reference, pad with `undefined` up to that column, push the value.
     */
    method ReadCell(rowArray: Row, cell: CellRecord) returns (r: Result<Row, Error>)
      ensures r == AddCell(Ok(rowArray), cell, sharedStrings, parseFloat)
    {
      var value := InterpretCell(cell, sharedStrings, parseFloat);
      if value.Err? {
        return Err(value.error);
      }
      if cell.reference.None? {
        return Err(CellReferenceMissing);
      }
      var cellLetter, _ := CellAddress.GetCellNameComponents(cell.reference.value, true);
      var cellIndex := CellAddress.CellLetterToIndex(cellLetter);
      var row := rowArray;
      if cellIndex != |row| {
        var k := |row|;
        while k < cellIndex
          invariant |rowArray| <= k && (k <= cellIndex || k == |rowArray|)
          invariant row == rowArray + seq(k - |rowArray|, _ => Absent)
        {
          row := row + [Absent];
          k := k + 1;
        }
      }
      assert row == rowArray + seq(if cellIndex > |rowArray| then cellIndex - |rowArray| else 0, _ => Absent);
      r := Ok(row + [value.value]);
    }

    /** readAllRows(trimTable, ignoreRogueSpaces): the shared reader over this sheet's rows. */
    method ReadAllRows(trimTable: bool, ignoreRogueSpaces: bool) returns (r: Result<seq<Row>, Error>)
      ensures Stops(SheetSource(sheetData, sharedStrings, parseFloat))
      ensures r == TableOf(SheetSource(sheetData, sharedStrings, parseFloat), trimTable, ignoreRogueSpaces)
    {
      SheetStops(sheetData, sharedStrings, parseFloat);
      r := RowTrimming.ReadAllRows(SheetSource(sheetData, sharedStrings, parseFloat), trimTable, ignoreRogueSpaces);
    }
  }
}
