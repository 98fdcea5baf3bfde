# Spreadsheet row extraction, modelled in Dafny

This project models the row extraction of `ExcelImporter` from doit-commons. The importer is built with a
column configuration, a map from column name to the type its cells are converted to. `extractRows`
reads the first sheet of a workbook and works in two passes:

- **Header pass.** The first row's stored cells, left to right, give the column names. The first name
  that is not a key of the configuration aborts the extraction with an error carrying that name.
- **Data pass.** Every later row is visited in order, and rows with no cell that has a display string are
  skipped. Each other row becomes a record that maps column names to converted values. Cells are read by
  absolute position. Reading a position with no stored cell creates a blank cell there, in the row. The
  loop re-reads the row's physical cell count on every iteration, and each created cell raises that count.
  So the record covers every position up to the row's last stored cell, capped by the header length.

Files:

- `wrappers.dfy` (`Wrappers`): `Option` and `Result`.
- `sheets.dfy` (`Sheets`): a sheet as a sequence of rows. A row is a sequence of positions, each holding
  `Some(cell)` or `None`. This file also holds the row's stored cells (`PresentCells`, the cell iterator's
  view), its physical cell count, and positional reads with the blank-cell fallback (`CellAt`). It also holds
  the library's `getCell(i, CREATE_NULL_AS_BLANK)`, which creates the missing cell (`CreateNullAsBlank`). The cell
  operations the importer calls but that are not part of this model are the fields of a `Cells` value
  passed in: `Cells.toString`, `Cells.toObject`, the library's `getStringCellValue`, and the blank cell
  the library synthesises.
- `excel_importer.dfy` (`Excel`): the specification functions (`IsBlankRow`, `HeaderNames`, `Columns`,
  `RowRecord`, `Records`, `KeptRows`, `Extraction`). It also holds the class `ExcelImporter`, whose `const
  config` is the importer's final field. The class methods `IsEmptyRow`, `ReadHeader`, `ConvertRow` and
  `ExtractRows` carry the source's loops, and each is proved equal to the specification function it
  implements.
- `excel_properties.dfy` (`ExcelProperties`): what the result satisfies, for every configuration, sheet
  and cell operation.
- `excel_scenarios.dfy` (`ExcelScenarios`): the behaviours the unit tests pin down, on hand-built sheets.
  The configuration is the tests' four columns. The stand-in cell operations know text cells, number
  cells and a blank cell.

The body of `extractRows` is split into three methods: the header pass (`ReadHeader`), the conversion of
one row (`ConvertRow`), and the driver (`ExtractRows`). The loops and their exits are the source's.

Two behaviours of the source are kept as written:

- Column names come from the header's stored cells. Data cells are read by absolute position. So a gap in
  the header shifts later names onto earlier positions (`HeaderGapShiftsColumns`).
- The loop bound at ExcelImporter.java:99 reads as "the row's physical cell count", but that count is not fixed. Line
  100 creates a blank cell at each empty position it reads, and each created cell adds one to the count.
  So the record is not bounded by the count the row had before conversion. It runs up to the last stored
  cell (`Width`, `ConvertRow`), and `CreatedBlankCellExtendsRow` gives a row with one stored cell and a
  two-entry record.

Two column names in the header may be equal. The record is filled with successive `put` calls, so the
later position overwrites the earlier one. `RowRecordShape` therefore states each name's value from the
name's last position.

## Model

| member | source | states |
|---|---|---|
| `Excel.ExcelImporter.constructor` | src/main/java/br/com/doit/commons/excel/ExcelImporter.java:40-50 | the importer keeps the configuration it is given in a final field; the model holds it as a value, so later changes the caller makes to its map are not seen (see "Left out") |
| `Excel.ExcelImporter.IsEmptyRow` | src/main/java/br/com/doit/commons/excel/ExcelImporter.java:26-38 | the early-exit loop returns true exactly when no stored cell of the row has a display string |
| `ExcelProperties.BlankRowIffNoneDisplayed` | src/main/java/br/com/doit/commons/excel/ExcelImporter.java:26-38 | blankness read over the cells the cell iterator yields equals blankness read by position |
| `ExcelProperties.RowWithoutCellsIsBlank` | src/main/java/br/com/doit/commons/excel/ExcelImporter.java:27-37 | a row with no stored cell is blank |
| `Sheets.PresentCells` | src/main/java/br/com/doit/commons/excel/ExcelImporter.java:73 | the cell iterator yields at most as many cells as the row has positions |
| `Sheets.PresentCellsOfStoredRow` | src/main/java/br/com/doit/commons/excel/ExcelImporter.java:73 | in a row with a cell stored at every position, the iterator yields exactly those cells, in order |
| `Sheets.StoredEnd` | src/main/java/br/com/doit/commons/excel/ExcelImporter.java:99-100 | one past the row's last stored position: the position before it stores a cell, and none from it on does |
| `Sheets.PhysicalCountBelowStoredEnd` | src/main/java/br/com/doit/commons/excel/ExcelImporter.java:99 | the physical cell count never exceeds one past the last stored position |
| `Sheets.CreateNullAsBlank` | src/main/java/br/com/doit/commons/excel/ExcelImporter.java:100 | reading position `i` with `CREATE_NULL_AS_BLANK` stores the cell there (the blank cell where none was stored), leaves the other positions alone, and adds one to the physical count exactly when it created a cell |
| `Sheets.StoreCount` | src/main/java/br/com/doit/commons/excel/ExcelImporter.java:100 | storing a cell adds one to the physical count exactly when the position was empty |
| `Sheets.FilledRowCount` | src/main/java/br/com/doit/commons/excel/ExcelImporter.java:99-100 | once blank cells fill the empty positions below `n`, the physical count exceeds `n` exactly when the original row stores a cell at `n` or beyond |
| `Excel.KnownPrefix` | src/main/java/br/com/doit/commons/excel/ExcelImporter.java:75-85 | the names before the result are all configured, and the name at the result, if any, is not |
| `Excel.Columns` | src/main/java/br/com/doit/commons/excel/ExcelImporter.java:70-86 | the header pass succeeds iff every header name is a configuration key; on success the names are the header's stored-cell strings in order; on failure the error carries the leftmost unconfigured name |
| `Excel.ExcelImporter.ReadHeader` | src/main/java/br/com/doit/commons/excel/ExcelImporter.java:68-86 | the header loop, throwing on the first unconfigured name, returns exactly `Columns` |
| `Excel.Width` | src/main/java/br/com/doit/commons/excel/ExcelImporter.java:99-100 | the number of converted positions is capped by the header length; when the header does not cap it, it ends just after the row's last stored cell, with no stored cell beyond; it is never below the physical cell count unless the header caps it |
| `Excel.RecordUpTo` | src/main/java/br/com/doit/commons/excel/ExcelImporter.java:97-105 | after `n` puts, the record has at most `n` entries |
| `Excel.RecordUpToKeys` | src/main/java/br/com/doit/commons/excel/ExcelImporter.java:97-105 | after `n` puts, the record's keys are exactly the first `n` column names |
| `Excel.ExcelImporter.ConvertRow` | src/main/java/br/com/doit/commons/excel/ExcelImporter.java:97-105 | the indexed loop, re-reading the physical count of a row in which each read of an empty position creates a blank cell, builds exactly `RowRecord` |
| `Excel.ConvertStep` | src/main/java/br/com/doit/commons/excel/ExcelImporter.java:99-104 | while the loop runs, a stored cell remains at or after the current position, and one iteration fills that position and adds its put |
| `Excel.ConvertExit` | src/main/java/br/com/doit/commons/excel/ExcelImporter.java:99 | the loop stops exactly at `Width`, with the row's record |
| `ExcelProperties.RecordUpToValue` | src/main/java/br/com/doit/commons/excel/ExcelImporter.java:99-105 | a name maps to the conversion of the cell at its last position among the first `n`; a later put under the same name overwrites |
| `ExcelProperties.RowRecordShape` | src/main/java/br/com/doit/commons/excel/ExcelImporter.java:99-105 | a record's keys are exactly the first `Width` names, so it has at most `Width` entries; each name maps to its cell, or the blank cell where none is stored, converted to the column's configured type |
| `ExcelProperties.ColumnsUpToLastStoredCell` | src/main/java/br/com/doit/commons/excel/ExcelImporter.java:99-104 | a column gets a value whenever the row stores a cell at its position or at any later position, so empty positions before a stored cell keep their keys |
| `ExcelProperties.NoColumnPastLastStoredCell` | src/main/java/br/com/doit/commons/excel/ExcelImporter.java:99-104 | a name with no stored cell at or after any of its positions gets no value |
| `ExcelProperties.RecordUpToSizeDistinct` | src/main/java/br/com/doit/commons/excel/ExcelImporter.java:99-105 | with distinct column names, `n` puts give exactly `n` entries |
| `ExcelProperties.RowRecordSizeDistinct` | src/main/java/br/com/doit/commons/excel/ExcelImporter.java:99-105 | with distinct column names, a record has exactly `Width` entries: one per position up to the last stored cell, capped by the header |
| `Excel.Records` | src/main/java/br/com/doit/commons/excel/ExcelImporter.java:88-108 | the data pass yields at most one record per data row |
| `Excel.KeptRows` | src/main/java/br/com/doit/commons/excel/ExcelImporter.java:90-95 | the kept positions are strictly increasing, every one is a non-blank row, and every non-blank row is among them |
| `ExcelProperties.RecordsFollowKeptRows` | src/main/java/br/com/doit/commons/excel/ExcelImporter.java:90-108 | the records correspond one-to-one, in order, to the non-blank rows; blank rows contribute nothing |
| `Excel.ExcelImporter.ExtractRows` | src/main/java/br/com/doit/commons/excel/ExcelImporter.java:60-114 | the method returns exactly `Extraction` of its configuration and input; it modifies nothing, so the configuration is unchanged and the result depends on nothing else |
| `ExcelProperties.ExtractionOfSheet` | src/main/java/br/com/doit/commons/excel/ExcelImporter.java:66-110 | on a sheet with a header row, extraction fails iff a header name is unconfigured, with the leftmost one; otherwise it yields one record per non-blank row after the header, in order, and the header row is never a record |
| `ExcelProperties.UnknownColumnAborts` | src/main/java/br/com/doit/commons/excel/ExcelImporter.java:75-82 | a header whose leftmost unconfigured name is at `k` fails with exactly that name and no records |
| `ExcelProperties.EmptySheetYieldsNoRecords` | src/main/java/br/com/doit/commons/excel/ExcelImporter.java:66-70 | a sheet without rows yields an empty result, not an error |
| `ExcelProperties.HeaderOnlySheetYieldsNoRecords` | src/main/java/br/com/doit/commons/excel/ExcelImporter.java:88-110 | a sheet holding only an acceptable header yields an empty result |
| `ExcelProperties.UnreadableSourceFails` | src/main/java/br/com/doit/commons/excel/ExcelImporter.java:111-113 | a workbook that cannot be read fails with a source-access error and no records |
| `ExcelScenarios.MultiTypes` | src/test/java/br/com/doit/commons/excel/TestExcelImporter.java:31-46 | for any name and numbers, a row under the four-column header yields one record with all four keys, each cell converted by its own column's type (string, integer, date, decimal) |
| `ExcelScenarios.OneLine` | src/test/java/br/com/doit/commons/excel/TestExcelImporter.java:49-59 | for any name and amount, a one-row sheet yields one record mapping `NAME` to the string and `AMOUNT` to the integer |
| `ExcelScenarios.OneLineWithBlankColumn` | src/test/java/br/com/doit/commons/excel/TestExcelImporter.java:62-76 | with blank `AMOUNT` and `DATE` columns before a stored `CURRENCY` value, all four keys are present, the blank ones with the missing value, whether the row stores blank cells there or no cells at all |
| `ExcelScenarios.TwoLinesAroundBlankLine` | src/test/java/br/com/doit/commons/excel/TestExcelImporter.java:79-97 | for any two name/amount rows, the records come in row order and a blank row between them gives none |
| `ExcelScenarios.UnidentifiedColumnIgnored` | src/test/java/br/com/doit/commons/excel/TestExcelImporter.java:100-106 | whatever a third cell beyond the two header columns holds, it is dropped and the record has exactly the two header keys |
| `ExcelScenarios.HeaderOnly` | src/test/java/br/com/doit/commons/excel/TestExcelImporter.java:109-115 | a header without data rows yields no records |
| `ExcelScenarios.InvalidColumn` | src/test/java/br/com/doit/commons/excel/TestExcelImporter.java:130-137 | whatever the data row, a header naming `INVALID` fails with that name and no records |
| `Excel.UnrecognizedColumnMessage` | src/main/java/br/com/doit/commons/excel/ExcelImporter.java:81 | the message opens with `A coluna '` followed by the rejected name, as the invalid-column test expects |
| `ExcelScenarios.InvalidColumnMessage` | src/test/java/br/com/doit/commons/excel/TestExcelImporter.java:133-134 | the error for the `INVALID` column carries exactly the message `A coluna 'INVALID' não é uma coluna reconhecida` |
| `ExcelScenarios.HeaderGapShiftsColumns` | src/main/java/br/com/doit/commons/excel/ExcelImporter.java:73-104 | header names come from stored cells, but data cells are read by position |
| `ExcelScenarios.CreatedBlankCellExtendsRow` | src/main/java/br/com/doit/commons/excel/ExcelImporter.java:99-104 | a row whose only stored cell is in the second column has a physical count of one, yet both columns get a value, the first converted from the created blank cell |

## Left out

- Opening the URL stream, `WorkbookFactory.create`, `getSheetAt(0)` and closing the stream (ExcelImporter.java:61-64) are I/O. The input is an already-read first sheet, or the failure to read one.
- The `IOException`/`InvalidFormatException` wrapping (ExcelImporter.java:111-113) is one `SourceAccess` error holding a description of the cause. The `ExcelImporterException` class is not part of this model, so neither is the message of a wrapped exception.
- `Cells.toString` and `Cells.toObject` are not part of this model: they convert numbers, decimals and dates with time zones. They are uninterpreted functions passed in, and so is the library's `getStringCellValue`.
- An exception thrown inside those cell operations is not modelled. Examples are an unsupported column type in `Cells.toObject` or a numeric header cell in `getStringCellValue`. Such an exception would abort the whole call. The modelled operations are total.
- The blank cell the library creates for a position with no stored cell is one abstract value, so its row and column coordinates are not modelled.
- A configuration value is a Java `Class<?>`. Here it is the type parameter `T`, and values are the type parameter `V`, including Java's `null`.
- The Java `int` loop counter cannot overflow because a row has far fewer cells than 2^31, so positions are unbounded naturals.
- `DateUtils` and its test are not part of this model.
- The `.xlsx` test fixtures cannot be read. The scenario lemmas rebuild their cases on hand-built sheets with stand-in cell operations.
- `ExcelImporter` keeps the caller's own `Map` without copying it (ExcelImporter.java:48-49), so a caller's later `put` changes what later extractions accept. The model's `config` is an immutable value, so this sharing is not modelled.
- The blank cells `getCell` creates at line 100 stay in the workbook's row. `ConvertRow` creates them in its own copy of the row. The workbook is discarded after extraction and no later step reads the row again, so nothing observable is lost.
- The stand-in cell operations read number cells as natural numbers, so a decimal such as 1500.5 and a date's calendar value are not modelled. `MultiTypes` checks that each column is converted by its own type.
