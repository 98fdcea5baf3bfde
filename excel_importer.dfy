/**
 * The row extraction of the spreadsheet importer: the first row of the first sheet names
 * the columns, every name must be a key of the importer's column configuration, and every
 * later row that is not blank becomes a record mapping column names to converted values.
 *
 * The specification functions come first; the class `ExcelImporter` holds the importer's
 * loops, each method proved equal to the specification function it implements.
 */
module Excel {
  import opened Wrappers
  import opened Sheets

  /** The column configuration: column name to the type its cells are converted to. */
  type Config<T> = map<string, T>

  /** One converted data row: column name to converted value. */
  type Record<V> = map<string, V>

  datatype ImportError =
    | UnrecognizedColumn(name: string)  // a header cell names a column the configuration lacks
    | SourceAccess(cause: string)       // the workbook could not be opened or read

  /** The message the importer gives for a header name missing from the configuration. */
  function UnrecognizedColumnMessage(name: string): (message: string)
    ensures 10 + |name| <= |message|
    ensures message[..10] == "A coluna '" && message[10..10 + |name|] == name
  {
    "A coluna '" + name + "' não é uma coluna reconhecida"
  }

  // ---------------------------------------------------------------------------
  // Blank rows

  /** A row is blank when none of its stored cells has a display string. */
  predicate IsBlankRow<C, T, V>(cells: Cells<C, T, V>, row: Row<C>) {
    forall i :: 0 <= i < |row| && row[i].Some? ==> cells.toString(row[i].value).None?
  }

  // ---------------------------------------------------------------------------
  // Header pass

  /** The header cells' string values, in the order the header row's cell iterator yields them. */
  function HeaderNames<C, T, V>(cells: Cells<C, T, V>, header: Row<C>): seq<string> {
    var present := PresentCells(header);
    seq(|present|, i requires 0 <= i < |present| => cells.stringCellValue(present[i]))
  }

  predicate AllKnown<T>(config: Config<T>, names: seq<string>) {
    forall i :: 0 <= i < |names| ==> names[i] in config
  }

  /** `k` is the leftmost position of a name that is not a key of the configuration. */
  predicate FirstUnknownAt<T>(config: Config<T>, names: seq<string>, k: int) {
    && 0 <= k < |names|
    && names[k] !in config
    && forall j :: 0 <= j < k ==> names[j] in config
  }

  /** The number of leading names that are keys of the configuration. */
  function KnownPrefix<T>(config: Config<T>, names: seq<string>): (k: nat)
    ensures k <= |names|
    ensures forall j :: 0 <= j < k ==> names[j] in config
    ensures k < |names| ==> names[k] !in config
  {
    if |names| == 0 || names[0] !in config then 0
    else 1 + KnownPrefix(config, names[1..])
  }

  /** The outcome of the header pass: the column names, or the first unrecognized one. */
  function Columns<C, T, V>(config: Config<T>, cells: Cells<C, T, V>, header: Row<C>)
    : (r: Result<seq<string>, ImportError>)
    ensures r.Success? <==> AllKnown(config, HeaderNames(cells, header))
    ensures r.Success? ==> r.value == HeaderNames(cells, header)
    ensures r.Failure? ==> exists k :: FirstUnknownAt(config, HeaderNames(cells, header), k)
                                    && r.error == UnrecognizedColumn(HeaderNames(cells, header)[k])
  {
    var names := HeaderNames(cells, header);
    var k := KnownPrefix(config, names);
    if k == |names| then Success(names)
    else
      assert FirstUnknownAt(config, names, k);
      Failure(UnrecognizedColumn(names[k]))
  }

  // ---------------------------------------------------------------------------
  // Data pass

  /**
   * How many positions of a data row are converted: every position up to the row's last
   * stored cell, capped by the header. The loop bound is the physical cell count, but each
   * blank cell created at an empty position raises that count by one, so empty positions
   * before a stored cell do not stop the loop.
   */
  function Width<C>(names: seq<string>, row: Row<C>): (w: nat)
    ensures w <= |names| && w <= |row|
    ensures w < |names| ==> (w == 0 || row[w - 1].Some?) && forall i :: w <= i < |row| ==> row[i].None?
    ensures w == |names| || PhysicalCellCount(row) <= w
    ensures w > 0 ==> exists j :: w - 1 <= j < |row| && row[j].Some?
  {
    PhysicalCountBelowStoredEnd(row);
    if StoredEnd(row) < |names| then StoredEnd(row) else |names|
  }

  /** The value the record of `row` gets from position `i`: that cell (or a blank one) converted to its column's type. */
  function Converted<C, T, V>(config: Config<T>, cells: Cells<C, T, V>, names: seq<string>, row: Row<C>, i: nat): V
    requires i < |names| && names[i] in config
  {
    cells.toObject(CellAt(cells, row, i), config[names[i]])
  }

  /** The record after putting positions `0 .. n-1` of `row`, one after the other, under their column names. */
  function RecordUpTo<C, T, V>(config: Config<T>, cells: Cells<C, T, V>, names: seq<string>, row: Row<C>, n: nat)
    : (m: Record<V>)
    requires n <= |names| && AllKnown(config, names)
    ensures |m| <= n
  {
    if n == 0 then map[]
    else RecordUpTo(config, cells, names, row, n - 1)[names[n - 1] := Converted(config, cells, names, row, n - 1)]
  }

  /** After `n` puts, the record's keys are exactly the first `n` column names. */
  lemma {:induction false} RecordUpToKeys<C, T, V>(
    config: Config<T>, cells: Cells<C, T, V>, names: seq<string>, row: Row<C>, n: nat)
    requires n <= |names| && AllKnown(config, names)
    ensures RecordUpTo(config, cells, names, row, n).Keys == set i | 0 <= i < n :: names[i]
  {
    if n > 0 {
      RecordUpToKeys(config, cells, names, row, n - 1);
    }
  }

  /** The record a non-blank data row is converted to. */
  function RowRecord<C, T, V>(config: Config<T>, cells: Cells<C, T, V>, names: seq<string>, row: Row<C>): Record<V>
    requires AllKnown(config, names)
  {
    RecordUpTo(config, cells, names, row, Width(names, row))
  }

  /** The records of the data rows, blank rows skipped, in row order. */
  function Records<C, T, V>(config: Config<T>, cells: Cells<C, T, V>, names: seq<string>, rows: seq<Row<C>>)
    : (out: seq<Record<V>>)
    requires AllKnown(config, names)
    ensures |out| <= |rows|
  {
    if |rows| == 0 then []
    else
      var last := rows[|rows| - 1];
      Records(config, cells, names, rows[..|rows| - 1])
        + (if IsBlankRow(cells, last) then [] else [RowRecord(config, cells, names, last)])
  }

  /** The positions of the non-blank rows, in increasing order. */
  function KeptRows<C, T, V>(cells: Cells<C, T, V>, rows: seq<Row<C>>): (ks: seq<nat>)
    ensures forall j :: 0 <= j < |ks| ==> ks[j] < |rows| && !IsBlankRow(cells, rows[ks[j]])
    ensures forall j, j' :: 0 <= j < j' < |ks| ==> ks[j] < ks[j']
    ensures forall i :: 0 <= i < |rows| && !IsBlankRow(cells, rows[i]) ==> i in ks
  {
    if |rows| == 0 then []
    else
      var prefix := rows[..|rows| - 1];
      assert forall i :: 0 <= i < |prefix| ==> prefix[i] == rows[i];
      KeptRows(cells, prefix) + (if IsBlankRow(cells, rows[|rows| - 1]) then [] else [|rows| - 1])
  }

  /** The whole extraction: a source that could not be read, the header pass, then the data pass. */
  function Extraction<C, T, V>(config: Config<T>, cells: Cells<C, T, V>, source: Result<Sheet<C>, string>)
    : Result<seq<Record<V>>, ImportError>
  {
    match source
    case Failure(cause) => Failure(SourceAccess(cause))
    case Success(sheet) =>
      if |sheet| == 0 then Success([])
      else
        match Columns(config, cells, sheet[0])
        case Failure(e) => Failure(e)
        case Success(names) => Success(Records(config, cells, names, sheet[1..]))
  }

  // ---------------------------------------------------------------------------
  // The importer

  class ExcelImporter<C, T, V> {
    const config: Config<T>

    constructor (config: Config<T>)
      ensures this.config == config
    {
      this.config := config;
    }

    /** Whether no stored cell of the row has a display string; stops at the first one that has. */
    static method IsEmptyRow(cells: Cells<C, T, V>, row: Row<C>) returns (empty: bool)
      ensures empty == IsBlankRow(cells, row)
    {
      var k := 0;
      while k < |row|
        invariant 0 <= k <= |row|
        invariant forall j :: 0 <= j < k && row[j].Some? ==> cells.toString(row[j].value).None?
      {
        if row[k].Some? && cells.toString(row[k].value).Some? {
          return false;
        }
        k := k + 1;
      }
      return true;
    }

    /** The header pass: collects the header cells' names, failing on the first one the configuration lacks. */
    method ReadHeader(cells: Cells<C, T, V>, header: Row<C>) returns (r: Result<seq<string>, ImportError>)
      ensures r == Columns(config, cells, header)
    {
      var columnNames: seq<string> := [];
      var k := 0;
      while k < |header|
        invariant 0 <= k <= |header|
        invariant columnNames == HeaderNames(cells, header[..k])
        invariant AllKnown(config, columnNames)
      {
        HeaderNamesStep(cells, header, k);
        if header[k].Some? {
          var columnName := cells.stringCellValue(header[k].value);
          if columnName !in config {
            HeaderNamesPrefix(cells, header, k + 1);
            assert FirstUnknownAt(config, HeaderNames(cells, header), |columnNames|);
            return Failure(UnrecognizedColumn(columnName));
          }
          columnNames := columnNames + [columnName];
        }
        k := k + 1;
      }
      assert header[..k] == header;
      return Success(columnNames);
    }

    /**
     * Converts one data row. The bound re-reads the row's physical cell count on every
     * iteration, and reading an empty position creates the blank cell there, so the loop
     * runs up to the row's last stored cell, capped by the header.
     */
    method ConvertRow(cells: Cells<C, T, V>, columnNames: seq<string>, row: Row<C>) returns (convertedRow: Record<V>)
      requires AllKnown(config, columnNames)
      ensures convertedRow == RowRecord(config, cells, columnNames, row)
    {
      var r := row;
      convertedRow := map[];
      var i := 0;
      ConvertStart(config, cells, columnNames, row);
      while i < PhysicalCellCount(r) && i < |columnNames|
        invariant Converting(config, cells, columnNames, row, r, i, convertedRow)
      {
        ConvertStep(config, cells, columnNames, row, r, i, convertedRow);
        r := CreateNullAsBlank(cells, r, i);
        var cell := r[i].value;
        var columnName := columnNames[i];
        convertedRow := convertedRow[columnName := cells.toObject(cell, config[columnName])];
        i := i + 1;
      }
      ConvertExit(config, cells, columnNames, row, r, i, convertedRow);
    }

    /** Extracts the records of a sheet: header pass, then one record per non-blank data row. */
    method ExtractRows(cells: Cells<C, T, V>, source: Result<Sheet<C>, string>)
      returns (r: Result<seq<Record<V>>, ImportError>)
      ensures r == Extraction(config, cells, source)
    {
      if source.Failure? {
        return Failure(SourceAccess(source.error));
      }
      var sheet := source.value;
      var columnNames: seq<string> := [];
      var next := 0;
      if next < |sheet| {
        var header := ReadHeader(cells, sheet[0]);
        if header.Failure? {
          return Failure(header.error);
        }
        columnNames := header.value;
        next := 1;
      }
      var convertedRows: seq<Record<V>> := [];
      ghost var first := next;
      ghost var dataRows := sheet[first..];
      while next < |sheet|
        invariant first <= next <= |sheet|
        invariant first == if |sheet| > 0 then 1 else 0
        invariant |sheet| > 0 ==> Columns(config, cells, sheet[0]) == Success(columnNames)
        invariant AllKnown(config, columnNames)
        invariant convertedRows == Records(config, cells, columnNames, dataRows[..next - first])
      {
        var row := sheet[next];
        assert row == dataRows[next - first];
        RecordsStep(config, cells, columnNames, dataRows, next - first);
        next := next + 1;
        var empty := IsEmptyRow(cells, row);
        if empty {
          continue;
        }
        var convertedRow := ConvertRow(cells, columnNames, row);
        convertedRows := convertedRows + [convertedRow];
      }
      assert dataRows[..next - first] == dataRows;
      return Success(convertedRows);
    }
  }

  // ---------------------------------------------------------------------------
  // Lemmas the importer's loops rely on

  lemma HeaderNamesStep<C, T, V>(cells: Cells<C, T, V>, header: Row<C>, k: nat)
    requires k < |header|
    ensures HeaderNames(cells, header[..k + 1])
         == HeaderNames(cells, header[..k])
            + (if header[k].Some? then [cells.stringCellValue(header[k].value)] else [])
  {
    PresentCellsStep(header, k);
  }

  lemma HeaderNamesPrefix<C, T, V>(cells: Cells<C, T, V>, header: Row<C>, k: nat)
    requires k <= |header|
    ensures HeaderNames(cells, header[..k]) <= HeaderNames(cells, header)
  {
    PresentCellsPrefix(header, k);
  }

  /**
   * The state of the conversion loop after `i` positions: blank cells fill the empty
   * positions below `i`, and the record holds the first `i` puts.
   */
  ghost predicate Converting<C, T, V>(
    config: Config<T>, cells: Cells<C, T, V>, names: seq<string>, row: Row<C>, r: Row<C>, i: nat, m: Record<V>)
  {
    && AllKnown(config, names)
    && i <= Width(names, row)
    && FilledBelow(cells, row, r, i)
    && m == RecordUpTo(config, cells, names, row, i)
  }

  /** Before the conversion loop, nothing is filled and the record is empty. */
  lemma ConvertStart<C, T, V>(config: Config<T>, cells: Cells<C, T, V>, names: seq<string>, row: Row<C>)
    requires AllKnown(config, names)
    ensures Converting(config, cells, names, row, row, 0, map[])
  {
  }

  /** One iteration of the conversion loop: the filled prefix and the record both grow by one position. */
  lemma ConvertStep<C, T, V>(
    config: Config<T>, cells: Cells<C, T, V>, names: seq<string>, row: Row<C>, r: Row<C>, i: nat, m: Record<V>)
    requires Converting(config, cells, names, row, r, i, m)
    requires i < PhysicalCellCount(r) && i < |names|
    ensures i < |r| && CreateNullAsBlank(cells, r, i)[i].Some? && names[i] in config
    ensures Converting(config, cells, names, row, CreateNullAsBlank(cells, r, i), i + 1,
                       m[names[i] := cells.toObject(CreateNullAsBlank(cells, r, i)[i].value, config[names[i]])])
  {
    FilledRowCount(cells, row, r, i);
    FillStep(cells, row, r, i);
  }

  /** The conversion loop stops exactly at `Width`, with the row's record. */
  lemma ConvertExit<C, T, V>(
    config: Config<T>, cells: Cells<C, T, V>, names: seq<string>, row: Row<C>, r: Row<C>, i: nat, m: Record<V>)
    requires Converting(config, cells, names, row, r, i, m)
    requires !(i < PhysicalCellCount(r) && i < |names|)
    ensures m == RowRecord(config, cells, names, row)
  {
    FilledRowCount(cells, row, r, i);
  }

  /** The data pass is incremental: one more row adds its record, unless the row is blank. */
  lemma RecordsStep<C, T, V>(config: Config<T>, cells: Cells<C, T, V>, names: seq<string>, rows: seq<Row<C>>, k: nat)
    requires AllKnown(config, names) && k < |rows|
    ensures Records(config, cells, names, rows[..k + 1])
         == Records(config, cells, names, rows[..k])
            + (if IsBlankRow(cells, rows[k]) then [] else [RowRecord(config, cells, names, rows[k])])
  {
    assert rows[..k + 1][..k] == rows[..k];
  }
}
