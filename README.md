# tiny-xlsx: a verified model of the row readers

tiny-xlsx reads a spreadsheet as a table of rows. `XlsxSheetXmlReader` reads one worksheet
of an XLSX file. `CsvReader` reads a comma-separated text file. Both hand a `readRowAt(i)`
function to the shared `readAllRows`, which calls it for i = 0, 1, 2, ... until it returns
a falsy value, and optionally trims the table.

The model covers:

- the column-letter codec `cellLetterToIndex` / `indexToCellLetter`: bijective base 26,
  A = 0, Z = 25, AA = 26, the `r` attribute convention of the `c` element in section
  18.3.1.4 of ECMA-376 Part 1 (module `CellAddress`);
- the split of a cell reference such as "B7" into letters and row number
  (`getCellNameComponents`, `getCell2DIndex`, module `CellAddress`), with `parseInt` as
  ECMAScript defines it when the radix is left out (module `JsText`);
- the interpretation of one `c` element by its `t` attribute (`interpretCell`,
  `getCellRawValue`, `readSharedString`, module `CellValues`);
- `XlsxSheetXmlReader.readRowAt`, which turns the sparse `c` elements of one row into a
  dense array with `undefined` in the gaps (module `SheetReader`, class `XlsxSheetReader`);
- the shared `readAllRows`, which drops the trailing run of empty rows and cuts every row
  one column past the widest non-empty cell (module `RowTrimming`);
- `CsvReader.read`, which splits the file into lines, and `CsvReader.readRowAt`, which
  tokenizes one line with Excel's quoting (`"` around a field, `""` for a quote inside
  it) and skips a final carriage return (module `Csv`, class `CsvReader`).

Each imperative routine is a `method` with loops. It is proved equal to a specification
function, and the properties are lemmas about those functions:

- `readAllRows` is proved against `TableOf`;
- `readRowAt` is proved against `RowAt` / `CsvRowAt`;
- `cellLetterToIndex` is proved against `ColumnIndex`.

The worksheet DOM is replaced by plain records:

- a row is its `r` attribute and its `c` elements in document order;
- a cell is its `r` and `t` attributes and the text of its first `v` descendant;
- the shared-string table is a sequence of strings.

`parseFloat` is a parameter that returns `None` for NaN. A row source is a function from
indices to "a row", "`undefined`" or "an exception".

A few behaviours of the code are modelled as written even where they may surprise:

- An empty line in a CSV file is falsy, so `readAllRows` stops there. Lines after an
  empty line are never read (`Csv.EmptyLineEndsTable`).
- In a worksheet, a row number that no `row` element carries makes `readRowAt` answer
  `undefined`, so `readAllRows` stops there. Rows numbered past a gap are never read
  (`SheetReader.MissingRowEndsTable`).
- `CsvReader.read()` splits the file at every line feed before any tokenizing, inside
  quotes too. So a field holding a line feed is read as two rows, and quoted line breaks
  do not read back (`Csv.QuotedLineFeedSplits`).
- Before `read()` has run, `CsvReader.readRowAt` raises on `this.lines[i]`
  (`LinesNotRead`).
- A separator that is itself a quote character never separates: the quote test comes
  first.
- A shared-string reference whose index is out of range or NaN raises on `.textContent`
  (`SharedStringMissing`). A `c` element without an `r` attribute raises on
  `cellName.length` (`CellReferenceMissing`). interpretCell runs first, so its error wins
  when a cell has both faults.
- `readRowAt` finds its row by comparing the `r` attribute, as a string, with the decimal
  text of i + 1, as the CSS attribute selector does. The first matching row wins.

## Model

| member | source | states |
|---|---|---|
| CellAddress.ColumnIndex | tiny-xlsx.js:116-123 | the value cellLetterToIndex computes; what it means is stated by IndexOfName and NameOfIndex below |
| CellAddress.CellLetterToIndex | tiny-xlsx.js:116-123 | the loop returns ColumnIndex(letter): the value accumulated by 26 * index + (code - 64) over the letters, minus one |
| CellAddress.IndexToCellLetter | tiny-xlsx.js:125-133 | the loop returns ColumnName(index), prepending the letter of index mod 26 while the index is non-negative |
| CellAddress.ColumnName | tiny-xlsx.js:125-133 | a non-negative index gives a non-empty name of letters A to Z; a negative one gives "" |
| CellAddress.IndexOfName | tiny-xlsx.js:116-133 | cellLetterToIndex(indexToCellLetter(n)) == n for every n >= 0 |
| CellAddress.NameOfIndex | tiny-xlsx.js:116-133 | every non-empty A-Z name has a non-negative index, and indexToCellLetter gives the name back |
| CellAddress.ColumnNameExamples | tiny-xlsx.js:125-133 | 0, 25, 26, 51, 52, 701, 702 are named A, Z, AA, AZ, BA, ZZ, AAA |
| CellAddress.ColumnIndexExamples | tiny-xlsx.js:116-123 | A, Z, AA, ZZ, AAA have the indices 0, 25, 26, 701, 702 |
| CellAddress.LetterPrefix | tiny-xlsx.js:137-143 | the letters read are a prefix of the name, all in A-Z, and stop at the end or at the first other character |
| CellAddress.LetterPrefixUnique | tiny-xlsx.js:137-143 | any prefix with those three properties is the one LetterPrefix returns |
| CellAddress.GetCellNameComponents | tiny-xlsx.js:135-150 | the letter part is the longest A-Z prefix; with onlyLetter nothing else is returned, otherwise letters + rest == cellName |
| CellAddress.Cell2DIndex | tiny-xlsx.js:152-159 | the column is non-negative exactly when the reference starts with a letter A-Z, and -1 otherwise; a reference of letters only has a NaN row |
| CellAddress.Cell2DIndexOfDigits | tiny-xlsx.js:152-159 | letters followed by a digit-only row part give (number - 1, index of the letters) |
| CellAddress.Cell2DIndexRoundTrip | tiny-xlsx.js:152-159 | splitting the name written from (row, column) gives (row, column) back |
| CellAddress.Cell2DIndexOfB7 | tiny-xlsx.js:152-159 | "B7" gives (6, 1) |
| CellAddress.Cell2DIndexOfAA1 | tiny-xlsx.js:152-159 | "AA1" gives (0, 26) |
| CellAddress.Cell2DIndexWithoutRow | tiny-xlsx.js:156 | a reference without digits has no row number: parseInt("") is NaN |
| JsText.Trim | tiny-xlsx.js:49 | `trim` removes a leading and a trailing run of white space and keeps the text between them; the result neither starts nor ends with white space |
| JsText.ParseInt | tiny-xlsx.js:156 | parseInt is NaN unless a decimal digit follows the leading white space and the sign; such a digit always gives a number unless it starts a `0x` prefix |
| JsText.TrimEmptyIffBlank | tiny-xlsx.js:49 | `s.trim() === ""` holds exactly when every character of s is ECMAScript white space |
| JsText.ParseIntOfDigits | tiny-xlsx.js:156 | parseInt of a decimal digit string is the number the digits spell |
| JsText.ParseIntOfDecimal | tiny-xlsx.js:156 | parseInt reads back the `${i + 1}` text of a number |
| CellValues.ReadSharedString | tiny-xlsx.js:111-114 | entry `index` of the table when the index is a number in range; otherwise the read raises, naming the index |
| CellValues.ParseRawIndex | tiny-xlsx.js:227 | parseInt of an absent value is NaN |
| CellValues.InterpretCell | tiny-xlsx.js:199-234 | no or "n" tag: undefined without a value, the raw text when parseFloat gives NaN, the number parseFloat gives otherwise; "b": true exactly for "1"; "s": the table entry, raising exactly on a missing entry; any other tag: the raw text |
| CellValues.SharedStringCell | tiny-xlsx.js:225-227 | an "s" cell whose value is the decimal text of an index in range gives that entry |
| CellValues.SharedStringOutOfRange | tiny-xlsx.js:111-114 | an "s" cell whose index is past the table raises |
| RowTrimming.IsEmptyCellIsTrimCheck | tiny-xlsx.js:48-49 | the corrected trimCheck holds exactly for undefined and, with ignoreRogueSpaces, for a string that is "" or trims to "" |
| RowTrimming.LastFilled | tiny-xlsx.js:66-72 | None exactly for an all-empty row; otherwise the index of a non-empty cell with only empty cells after it |
| RowTrimming.ScanRow | tiny-xlsx.js:60-72 | the scan from the right reports the row empty exactly when LastFilled is None, and otherwise finds LastFilled's index |
| RowTrimming.TrimCheckAsWritten | tiny-xlsx.js:48-49 | with ignoreRogueSpaces the written check raises exactly on numbers and booleans |
| RowTrimming.TrimCheckAgrees | tiny-xlsx.js:48-49 | where the written check does not raise, it says "empty" exactly for undefined and, with ignoreRogueSpaces, blank strings |
| RowTrimming.LastFilledAsWritten | tiny-xlsx.js:66-72 | the scan with the written check returns an index inside the row when it finds one |
| RowTrimming.LastFilledAsWrittenAgrees | tiny-xlsx.js:48-72 | when the written scan does not raise, it finds the same cell as LastFilled |
| RowTrimming.LastFilledAsWrittenRaises | tiny-xlsx.js:48-72 | the written scan raises exactly when ignoreRogueSpaces is set and the last non-empty cell of the row is a number or a boolean |
| RowTrimming.NumberRowRaisesAsWritten | tiny-xlsx.js:48-49 | the row [1] with ignoreRogueSpaces raises in the written check, though 1 is a non-empty cell |
| RowTrimming.KeptCountDropsBlankSuffix | tiny-xlsx.js:74-90 | the rows dropped are all blank, and the last row kept, if any, is not |
| RowTrimming.MaxFilledColumnBounds | tiny-xlsx.js:66-72 | maxWidth is at least the column of every non-empty cell |
| RowTrimming.MaxFilledColumnAttained | tiny-xlsx.js:66-72 | a positive maxWidth is the last non-empty column of some row |
| RowTrimming.MaxLength | tiny-xlsx.js:62-64 | maxPhysicalWidth bounds the length of every row |
| RowTrimming.Extend | tiny-xlsx.js:59-81 | after one more row, emptyStartedAt is cleared by a non-empty row and set by the first blank row of a run; maxWidth and maxPhysicalWidth grow to the row's last non-empty column and length |
| RowTrimming.Trimmed | tiny-xlsx.js:86-97 | the trimmed table has at most as many rows as were read, and each of its rows is a prefix of the row read |
| RowTrimming.TrimmedShape | tiny-xlsx.js:86-97 | the result has the kept count of rows; each is its row cut to min(length, maxWidth + 1) |
| RowTrimming.TrimmedKeepsFilledCells | tiny-xlsx.js:86-97 | every non-empty cell is still there, at the same row and column |
| RowTrimming.TrimmedRemovesOnlyEmptyCells | tiny-xlsx.js:86-97 | every cell the trim removes is empty |
| RowTrimming.TrimmedAllBlank | tiny-xlsx.js:74-90 | a table of blank rows trims to [] |
| RowTrimming.KeptCountOfTrimmed | tiny-xlsx.js:86-97 | a trimmed table has no trailing blank row |
| RowTrimming.MaxFilledColumnOfTrimmed | tiny-xlsx.js:86-97 | trimming does not move maxWidth |
| RowTrimming.TrimmedIdempotent | tiny-xlsx.js:86-97 | trimming a trimmed table changes nothing |
| RowTrimming.RowsBefore | tiny-xlsx.js:51-57 | the rows pushed are the ones the source gave, in order |
| RowTrimming.UntrimmedIsRowsRead | tiny-xlsx.js:51-59 | without trimming the result is exactly the rows read, in order, up to the first falsy answer |
| RowTrimming.TableOf | tiny-xlsx.js:42-101 | readAllRows raises exactly when the source's first falsy answer is an exception; otherwise each row returned is a prefix of the row read at its index |
| RowTrimming.TableOfRows | tiny-xlsx.js:51-100 | a source that gives some rows and then undefined reads, untrimmed, as exactly those rows |
| RowTrimming.TrackRow | tiny-xlsx.js:59-81 | the loop body keeps emptyStartedAt, maxWidth and maxPhysicalWidth equal to their values over the rows read |
| RowTrimming.TrimRows | tiny-xlsx.js:86-97 | the final cut and slice loop returns the trimmed table |
| RowTrimming.ReadAllRows | tiny-xlsx.js:42-101 | the result is the source's exception if it raises one, otherwise the rows read, trimmed when trimTable is set |
| RowTrimming.TrailingEmptyRowExample | tiny-xlsx.js:74-90 | a trailing row of undefined cells is dropped |
| RowTrimming.NarrowColumnsExample | tiny-xlsx.js:92-97 | rows are cut one column past the widest non-empty cell |
| SheetReader.FindRow | tiny-xlsx.js:162 | the first row whose `r` attribute is the given text, or none when no row has it |
| SheetReader.Place | tiny-xlsx.js:180-186 | the row is padded with undefined up to the column, then the value is pushed after the old contents |
| SheetReader.AddCell | tiny-xlsx.js:172-186 | one iteration keeps an earlier exception, and otherwise only extends the row |
| SheetReader.RowAt | tiny-xlsx.js:161-166 | readRowAt(i) is undefined exactly when no row has `r` equal to the text of i + 1 |
| SheetReader.DenseRow | tiny-xlsx.js:168-189 | a row that does not raise has at least one slot per `c` element |
| SheetReader.DenseRowErrSticks | tiny-xlsx.js:171-187 | once a cell raises, the whole row raises the same exception |
| SheetReader.DenseRowFails | tiny-xlsx.js:171-187 | the row raises exactly when some cell's value raises or a cell has no reference |
| SheetReader.DenseRowFirstFailure | tiny-xlsx.js:171-187 | a row that raises raises the error of its first failing cell: that cell's value error, else the missing reference |
| SheetReader.DenseRowCoversColumns | tiny-xlsx.js:171-187 | in any cell order, a row that does not raise is longer than every column a reference names |
| SheetReader.DenseRowPlacesCells | tiny-xlsx.js:168-189 | for cells in increasing column order: length is last column + 1, each value is at its column, every other slot is undefined |
| SheetReader.PlaceStep | tiny-xlsx.js:180-186 | pushing a cell to the right of the others keeps that placement |
| SheetReader.MissingRowEndsTable | tiny-xlsx.js:161-166 | when no row has `r` equal to the text of i + 1, readAllRows stops at row i or before, so rows after a gap in the numbering are never read |
| SheetReader.RowAtFindsFirst | tiny-xlsx.js:162-166 | of several rows with the same `r`, the first is read |
| SheetReader.SheetStops | tiny-xlsx.js:195-197 | a sheet's readRowAt eventually answers undefined, so readAllRows ends |
| SheetReader.XlsxSheetReader.constructor | tiny-xlsx.js:104-109 | the reader holds the sheet's rows and the shared-string table |
| SheetReader.XlsxSheetReader.ReadRowAt | tiny-xlsx.js:161-190 | the loop and its padding return RowAt |
| SheetReader.XlsxSheetReader.ReadCell | tiny-xlsx.js:172-186 | one iteration of the loop returns AddCell |
| SheetReader.XlsxSheetReader.ReadAllRows | tiny-xlsx.js:195-197 | reading the sheet ends and returns TableOf over the sheet's readRowAt |
| Csv.Split | tiny-xlsx.js:344 | there is one piece more than there are separators in the text |
| Csv.SplitPieces | tiny-xlsx.js:344 | no piece holds the separator |
| Csv.JoinSplit | tiny-xlsx.js:344 | joining the pieces with the separator gives the text back |
| Csv.SplitJoin | tiny-xlsx.js:344 | splitting separator-free pieces joined by the separator gives the pieces back |
| Csv.Fields | tiny-xlsx.js:381 | a line always yields at least one field: the last cell is pushed after the loop |
| Csv.TextRow | tiny-xlsx.js:357-383 | the row has one string cell per field, in order |
| Csv.CsvStops | tiny-xlsx.js:348-353 | readRowAt answers undefined past the last line, so readAllRows ends |
| Csv.EmptyLineEndsTable | tiny-xlsx.js:349-353 | an empty line answers undefined, so no line after it is read |
| Csv.Step | tiny-xlsx.js:368-378 | one character toggles the quote state exactly when it is `"`; it pushes the cell and starts an empty one only for a separator outside quotes, and otherwise leaves the fields alone |
| Csv.Run | tiny-xlsx.js:361-379 | the loop only appends to the fields already pushed, and remembers the last character read |
| Csv.RunAppend | tiny-xlsx.js:361-379 | tokenizing a + b is tokenizing b from the state reached after a |
| Csv.RunWithoutQuotes | tiny-xlsx.js:361-379 | without quotes the fields are the pieces between separators |
| Csv.FieldsWithoutQuotes | tiny-xlsx.js:361-381 | a line without quotes yields `line.split(separator)` of the line without its final carriage return |
| Csv.TrailingCarriageReturn | tiny-xlsx.js:364-366 | a final carriage return does not change the fields |
| Csv.QuotedRun | tiny-xlsx.js:368-378 | inside quotes, a text with every quote doubled adds the undoubled text to the cell |
| Csv.DoubledQuoteRun | tiny-xlsx.js:368-372 | inside quotes, `""` adds one `"` to the cell and stays inside |
| Csv.FieldRun | tiny-xlsx.js:368-378 | a field written with Excel's quoting adds exactly the field to the cell |
| Csv.SeparatorRun | tiny-xlsx.js:373-375 | the separator outside quotes pushes the cell and starts an empty one |
| Csv.RecordRun | tiny-xlsx.js:361-379 | reading a record written with Excel's quoting pushes all its fields but the last and holds the last as the cell |
| Csv.FieldsOfEncodeRecord | tiny-xlsx.js:355-383 | readRowAt reads back every record written with Excel's quoting |
| Csv.ExcelEscapingExample | tiny-xlsx.js:355 | the example line yields 5 fields, the last being `Transfer, to card "32" **********` |
| Csv.RunCounts | tiny-xlsx.js:361-379 | the tokenizer is inside quotes exactly after an odd number of quotes, and pushes one field per separator outside quotes |
| Csv.FieldCount | tiny-xlsx.js:357-383 | readRowAt returns one field more than there are separators outside quotes |
| Csv.LinesOfEncodeFile | tiny-xlsx.js:343-345 | splitting a non-empty file of records, each with at least one field and no field holding a line feed, at line feeds gives its lines back |
| Csv.CsvRoundTrip | tiny-xlsx.js:343-388 | for a separator that is not a quote, CR or LF, and records of at least one field, none the single empty field and no field holding a line feed: read() then readAllRows without trimming gives back exactly the records written, as string cells |
| Csv.QuotedLineFeedSplits | tiny-xlsx.js:344 | read() splits inside quotes too: for texts a and b without line feeds, the quoted field `"a` LF `b"` becomes the two lines `"a` and `b"` |
| Csv.CsvRowAt | tiny-xlsx.js:348-384 | readRowAt raises exactly before read(), gives undefined exactly for a missing or empty line, and otherwise the line's fields as string cells, at least one |
| Csv.CsvReader.constructor | tiny-xlsx.js:338-341 | the reader holds the file and the separator, and no lines yet |
| Csv.CsvReader.Read | tiny-xlsx.js:343-346 | `lines` becomes the file split at line feeds |
| Csv.CsvReader.ReadRowAt | tiny-xlsx.js:348-384 | the character loop returns CsvRowAt: raises before read(), undefined for an empty or missing line, the fields otherwise |
| Csv.CsvReader.ReadAllRows | tiny-xlsx.js:386-388 | reading the file ends and returns TableOf over the file's readRowAt |

## Left out

- parseXmlString (tiny-xlsx.js:9-40): decoding bytes and parsing XML use browser APIs (TextDecoder, DOMParser). The model starts from the parsed rows and cells.
- XlsxWorkbookReader (tiny-xlsx.js:256-335): asynchronous zip extraction and relationship lookup are I/O. Its sheet cache is looked up by position (line 292) but filled by sheetId (line 311); this is noted here and not modelled.
- getCellWithName (tiny-xlsx.js:243-251): apart from the DOM query for one `c` element it is interpretCell, which is modelled.
- addType (tiny-xlsx.js:236-238): it writes a Symbol property onto the value, which raises in module (strict) code for undefined and for every primitive value. Only addType = false is modelled, the default of interpretCell.
- parseFloat and isNaN (tiny-xlsx.js:219-220): floating-point parsing is a parameter `string -> Option<real>`, with None for NaN. Numbers are exact reals, not IEEE doubles: there is no counterpart of Infinity or -Infinity, which `parseFloat` returns for a text such as "Infinity" or "1e999". Column and row arithmetic is exact on unbounded integers, while JavaScript's doubles round above 2^53.
- The DOM queries (querySelector, getElementsByTagName, getAttribute, textContent): they are replaced by records. A row is its `r` attribute and its `c` elements in document order. A cell is its `r` and `t` attributes and the text of its first `v` descendant.
- Strings are sequences of Unicode characters, while JavaScript strings are UTF-16 code units. A character outside the Basic Multilingual Plane is one element here and two in JavaScript. The readers compare characters with `"`, `\r` and the separator, and test them against A-Z; `cellLetterToIndex` also computes with their codes (`charCodeAt`, tiny-xlsx.js:119). So the difference shows with a separator outside that plane, which JavaScript never matches and the model does, and with `cellLetterToIndex` called directly on a string holding such a character: the model adds its code point, JavaScript the two code units of its surrogate pair. Inside `readRowAt` only A-Z letters reach `cellLetterToIndex`, so the readers are not affected by the second case.
- Default arguments: the separator "," and trimTable = true are not defaults here; every call passes them.
- RowTrimming.ReadAllRows: it requires a source that eventually answers undefined or raises. With a source that never does, readAllRows loops forever; that case is not modelled. Every sheet and CSV file stops (SheetReader.SheetStops, Csv.CsvStops).
- RowTrimming.LastFilledAsWritten: its own contract only bounds the index. Its meaning is stated by LastFilledAsWrittenAgrees, for when it does not raise, and LastFilledAsWrittenRaises, for when it does.
- The model uses the corrected trimCheck (see Findings), under which numbers and booleans are non-empty cells. The raising check that the code contains is modelled only as RowTrimming.TrimCheckAsWritten / LastFilledAsWritten.
- Concurrency and the asynchronous API of the workbook reader are not modelled.

## Findings

| source | as written | input that shows it | evidently intended | confidence | as-written member | corrected member |
|---|---|---|---|---|---|---|
| tiny-xlsx.js:48-49 | with ignoreRogueSpaces, trimCheck calls `cell.trim()` on every defined cell other than "", and a number or a boolean has no `trim`, so readAllRows raises a TypeError | `readAllRows` with trimTable and ignoreRogueSpaces over a sheet whose row is `[1]` (a number cell); the scan from the right calls `(1).trim()` | numbers and booleans count as non-empty cells, and only white-space strings count as empty | not executed | RowTrimming.NumberRowRaisesAsWritten | RowTrimming.TrimCheckAgrees |
