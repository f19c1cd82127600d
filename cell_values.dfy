/**
 * Cell values and their interpretation (interpretCell, getCellRawValue and
 * readSharedString of XlsxSheetXmlReader).
 */
module CellValues {
  import opened Wrappers
  import JsText

  /** What a cell of a row holds: `undefined`, a number, a string or a boolean. */
  datatype Cell = Absent | Number(value: real) | Text(text: string) | Boolean(flag: bool)

  /** The exceptions the reader can raise. */
  datatype Error =
    | SharedStringMissing(index: Option<int>)  // `.textContent` read on an `si` element that is not there
    | CellReferenceMissing                     // a `c` element without its `r` attribute
    | TrimOnNonString                          // `cell.trim()` on a number or a boolean
    | LinesNotRead                             // CsvReader.readRowAt before read()

  /**
   * A `c` element of a worksheet: its `r` and `t` attributes (None when absent) and the
   * text of its first `v` descendant, which is what getCellRawValue returns (None for `undefined`).
   */
  datatype CellRecord = CellRecord(reference: Option<string>, tag: Option<string>, raw: Option<string>)

  /**
   * readSharedString: entry `index` of the shared-string table (the text of the
   * index-th `si` element); a missing entry, NaN included, raises.
   */
  function ReadSharedString(table: seq<string>, index: Option<int>): (r: Result<string, Error>)
    ensures r.Ok? <==> index.Some? && 0 <= index.value < |table|
    ensures r.Ok? ==> r.value == table[index.value] && r.value in table
    ensures r.Err? ==> r.error == SharedStringMissing(index)
  {
    if index.Some? && 0 <= index.value < |table| then Ok(table[index.value])
    else Err(SharedStringMissing(index))
  }

  /** The `t` values interpreted as numbers: absent and "n". */
  predicate IsNumberTag(tag: Option<string>) {
    tag == None || tag == Some("n")
  }

  /**
   * interpretCell (addType left false): dispatch on the `t` attribute. A number cell whose
   * text parseFloat rejects keeps its text; a shared-string cell looks its index up in the
   * table; a boolean cell is true exactly for the text "1"; any other tag keeps the raw text.
   * parseFloat is a parameter: None stands for NaN.
   */
  function InterpretCell(cell: CellRecord, table: seq<string>, parseFloat: string -> Option<real>): (r: Result<Cell, Error>)
    // only a shared-string reference can fail, and only by a missing entry
    ensures r.Err? ==> cell.tag == Some("s") && r.error.SharedStringMissing?
    ensures cell.tag == Some("s") ==>
      (r.Ok? <==> (var i := ParseRawIndex(cell.raw); i.Some? && 0 <= i.value < |table|))
    // a boolean comes exactly from a "b" cell, and is true exactly for "1"
    ensures cell.tag == Some("b") ==> r == Ok(Boolean(cell.raw == Some("1")))
    ensures r.Ok? && r.value.Boolean? ==> cell.tag == Some("b")
    // a number cell whose text parses gives that number
    ensures IsNumberTag(cell.tag) && cell.raw.Some? && parseFloat(cell.raw.value).Some? ==>
      r == Ok(Number(parseFloat(cell.raw.value).value))
    // a shared-string cell gives the table entry its parsed index names
    ensures cell.tag == Some("s") && r.Ok? ==> r.value == Text(table[ParseRawIndex(cell.raw).value])
    // a number comes only from a number cell whose text parses
    ensures r.Ok? && r.value.Number? ==>
      IsNumberTag(cell.tag) && cell.raw.Some? && parseFloat(cell.raw.value) == Some(r.value.value)
    // a string is the raw text or an entry of the table
    ensures r.Ok? && r.value.Text? ==>
      (cell.raw == Some(r.value.text) || (cell.tag == Some("s") && r.value.text in table))
    // the raw text is the fallback of a number cell that does not parse
    ensures IsNumberTag(cell.tag) && cell.raw.Some? && parseFloat(cell.raw.value).None? ==>
      r == Ok(Text(cell.raw.value))
    // `undefined` exactly when there is no value, except for "b" and "s" cells
    ensures r == Ok(Absent) <==> cell.raw.None? && cell.tag != Some("b") && cell.tag != Some("s")
  {
    if IsNumberTag(cell.tag) then
      match cell.raw
      case None => Ok(Absent)
      case Some(text) =>
        match parseFloat(text)
        case Some(x) => Ok(Number(x))
        case None => Ok(Text(text))
    else if cell.tag == Some("s") then
      match ReadSharedString(table, ParseRawIndex(cell.raw))
      case Ok(s) => Ok(Text(s))
      case Err(e) => Err(e)
    else if cell.tag == Some("b") then
      Ok(Boolean(cell.raw == Some("1")))
    else
      match cell.raw
      case None => Ok(Absent)
      case Some(text) => Ok(Text(text))
  }

  /** `parseInt(getCellRawValue(cell))`: an absent value is `parseInt(undefined)`, which is NaN. */
  function ParseRawIndex(raw: Option<string>): (r: Option<int>)
    ensures raw.None? ==> r.None?
  {
    match raw
    case None => None
    case Some(text) => JsText.ParseInt(text)
  }

  /** A shared-string cell whose value is the decimal text of an index in range gives that entry. */
  lemma SharedStringCell(reference: Option<string>, k: nat, table: seq<string>, parseFloat: string -> Option<real>)
    requires k < |table|
    ensures InterpretCell(CellRecord(reference, Some("s"), Some(JsText.Decimal(k))), table, parseFloat) == Ok(Text(table[k]))
  {
    JsText.ParseIntOfDecimal(k);
  }

  /** A shared-string index past the end of the table raises. */
  lemma SharedStringOutOfRange(reference: Option<string>, k: nat, table: seq<string>, parseFloat: string -> Option<real>)
    requires k >= |table|
    ensures InterpretCell(CellRecord(reference, Some("s"), Some(JsText.Decimal(k))), table, parseFloat)
      == Err(SharedStringMissing(Some(k)))
  {
    JsText.ParseIntOfDecimal(k);
  }
}
