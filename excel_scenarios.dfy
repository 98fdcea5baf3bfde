/**
 * The importer's documented behaviours on small hand-built sheets. The cell operations
 * here are a stand-in for the real conversion helpers: text cells read as strings,
 * number cells as integers, timestamps or decimals by column type, blank cells as the
 * missing value.
 */
module ExcelScenarios {
  import opened Wrappers
  import opened Sheets
  import opened Excel

  datatype TestCell = Text(text: string) | Number(number: nat) | BlankCell

  /** The configured column types: `String`, `Integer`, a timestamp and a decimal. */
  datatype ColumnType = StringType | IntegerType | DateType | DecimalType

  /** The converted values; `Missing` stands for Java's `null`. */
  datatype Value = Missing | Str(s: string) | Int(n: int) | Date(serial: nat) | Dec(units: nat)

  /** The decimal digits of `n`. */
  function Digits(n: nat): string
    decreases n
  {
    if n < 10 then [('0' as int + n) as char] else Digits(n / 10) + Digits(n % 10)
  }

  function Display(c: TestCell): Option<string> {
    match c
    case Text(s) => Some(s)
    case Number(n) => Some(Digits(n))
    case BlankCell => None
  }

  function StringValue(c: TestCell): string {
    if c.Text? then c.text else ""
  }

  function ToObject(c: TestCell, t: ColumnType): Value {
    match (c, t)
    case (Text(s), StringType) => Str(s)
    case (Number(n), IntegerType) => Int(n)
    case (Number(n), DateType) => Date(n)
    case (Number(n), DecimalType) => Dec(n)
    case _ => Missing
  }

  function TestCells(): Cells<TestCell, ColumnType, Value> {
    Cells(Display, StringValue, ToObject, BlankCell)
  }

  /** The configuration every test builds its importer with. */
  const TestConfig: Config<ColumnType> :=
    map["NAME" := StringType, "AMOUNT" := IntegerType, "DATE" := DateType, "CURRENCY" := DecimalType]

  const Header: Row<TestCell> := [Some(Text("NAME")), Some(Text("AMOUNT"))]

  const Names: seq<string> := ["NAME", "AMOUNT"]

  const FullHeader: Row<TestCell> := [Some(Text("NAME")), Some(Text("AMOUNT")), Some(Text("DATE")), Some(Text("CURRENCY"))]

  const AllNames: seq<string> := ["NAME", "AMOUNT", "DATE", "CURRENCY"]

  /** The test header names the two configured columns. */
  lemma HeaderIsNameAmount()
    ensures HeaderNames(TestCells(), Header) == Names
    ensures Columns(TestConfig, TestCells(), Header) == Success(Names)
  {
  }

  /** A sheet of an accepted header and one data row that is not blank yields that row's record alone. */
  lemma OneDataRowUnder(header: Row<TestCell>, names: seq<string>, row: Row<TestCell>)
    requires Columns(TestConfig, TestCells(), header) == Success(names)
    requires !IsBlankRow(TestCells(), row)
    ensures Extraction(TestConfig, TestCells(), Success([header, row]))
         == Success([RowRecord(TestConfig, TestCells(), names, row)])
  {
    var rows: seq<Row<TestCell>> := [row];
    assert [header, row][1..] == rows;
    assert rows[..0] == [];
    assert Records(TestConfig, TestCells(), names, rows) == [RowRecord(TestConfig, TestCells(), names, row)];
  }

  /** The same, under the test header. */
  lemma OneDataRow(row: Row<TestCell>)
    requires !IsBlankRow(TestCells(), row)
    ensures Extraction(TestConfig, TestCells(), Success([Header, row]))
         == Success([RowRecord(TestConfig, TestCells(), Names, row)])
  {
    HeaderIsNameAmount();
    OneDataRowUnder(Header, Names, row);
  }

  /**
   * Under the two-column header, a row with a stored cell in its second position gets both
   * columns, each from the cell at its position or the blank cell where none is stored.
   */
  lemma TwoColumnRecord(row: Row<TestCell>)
    requires |row| >= 2 && row[1].Some?
    ensures RowRecord(TestConfig, TestCells(), Names, row)
         == map["NAME" := ToObject(CellAt(TestCells(), row, 0), StringType),
                "AMOUNT" := ToObject(CellAt(TestCells(), row, 1), IntegerType)]
  {
    var cells := TestCells();
    assert Width(Names, row) == 2;
    assert RecordUpTo(TestConfig, cells, Names, row, 1) == map["NAME" := ToObject(CellAt(cells, row, 0), StringType)];
  }

  /** Under the four-column header, a row with a stored cell in its fourth position gets all four columns. */
  lemma FourColumnRecord(row: Row<TestCell>)
    requires |row| >= 4 && row[3].Some?
    ensures RowRecord(TestConfig, TestCells(), AllNames, row)
         == map["NAME" := ToObject(CellAt(TestCells(), row, 0), StringType),
                "AMOUNT" := ToObject(CellAt(TestCells(), row, 1), IntegerType),
                "DATE" := ToObject(CellAt(TestCells(), row, 2), DateType),
                "CURRENCY" := ToObject(CellAt(TestCells(), row, 3), DecimalType)]
  {
    var cells := TestCells();
    assert Width(AllNames, row) == 4;
    var r2 := map["NAME" := ToObject(CellAt(cells, row, 0), StringType),
                  "AMOUNT" := ToObject(CellAt(cells, row, 1), IntegerType)];
    assert RecordUpTo(TestConfig, cells, AllNames, row, 1) == map["NAME" := ToObject(CellAt(cells, row, 0), StringType)];
    assert RecordUpTo(TestConfig, cells, AllNames, row, 2) == r2;
    assert RecordUpTo(TestConfig, cells, AllNames, row, 3) == r2["DATE" := ToObject(CellAt(cells, row, 2), DateType)];
  }

  /** The full test header names the four configured columns. */
  lemma FullHeaderNamesAll()
    ensures Columns(TestConfig, TestCells(), FullHeader) == Success(AllNames)
  {
    PresentCellsOfStoredRow(FullHeader);
    assert HeaderNames(TestCells(), FullHeader) == AllNames;
  }

  /**
   * Under the full test header, a data row opening with a text cell and storing a cell in
   * its fourth position yields one record of all four columns, each holding its cell (or
   * the blank cell) converted to the column's type.
   */
  lemma UnderFullHeader(row: Row<TestCell>, name: Value, amount: Value, date: Value, currency: Value)
    requires |row| >= 4 && row[0].Some? && row[0].value.Text? && row[3].Some?
    requires name == ToObject(CellAt(TestCells(), row, 0), StringType)
    requires amount == ToObject(CellAt(TestCells(), row, 1), IntegerType)
    requires date == ToObject(CellAt(TestCells(), row, 2), DateType)
    requires currency == ToObject(CellAt(TestCells(), row, 3), DecimalType)
    ensures Extraction(TestConfig, TestCells(), Success([FullHeader, row]))
         == Success([map["NAME" := name, "AMOUNT" := amount, "DATE" := date, "CURRENCY" := currency]])
  {
    assert TestCells().toString(row[0].value).Some?;
    FullHeaderNamesAll();
    OneDataRowUnder(FullHeader, AllNames, row);
    FourColumnRecord(row);
  }

  /** Each column's cell is converted to that column's configured type. */
  lemma MultiTypes(name: string, amount: nat, date: nat, currency: nat)
    ensures Extraction(TestConfig, TestCells(),
                       Success([FullHeader, [Some(Text(name)), Some(Number(amount)), Some(Number(date)), Some(Number(currency))]]))
         == Success([map["NAME" := Str(name), "AMOUNT" := Int(amount), "DATE" := Date(date), "CURRENCY" := Dec(currency)]])
  {
    UnderFullHeader([Some(Text(name)), Some(Number(amount)), Some(Number(date)), Some(Number(currency))],
                    Str(name), Int(amount), Date(date), Dec(currency));
  }

  /**
   * Under the two-column test header, a data row whose second position stores a cell that is
   * not blank yields one record of both columns, each holding its cell (or the blank cell)
   * converted to the column's type.
   */
  lemma UnderNameAmountHeader(row: Row<TestCell>, name: Value, amount: Value)
    requires |row| >= 2 && row[1].Some? && row[1].value != BlankCell
    requires name == ToObject(CellAt(TestCells(), row, 0), StringType)
    requires amount == ToObject(CellAt(TestCells(), row, 1), IntegerType)
    ensures Extraction(TestConfig, TestCells(), Success([Header, row]))
         == Success([map["NAME" := name, "AMOUNT" := amount]])
  {
    assert TestCells().toString(row[1].value).Some?;
    OneDataRow(row);
    TwoColumnRecord(row);
  }

  /** One data row: each header name gets its cell's value converted to the column's type. */
  lemma OneLine(name: string, amount: nat)
    ensures Extraction(TestConfig, TestCells(), Success([Header, [Some(Text(name)), Some(Number(amount))]]))
         == Success([map["NAME" := Str(name), "AMOUNT" := Int(amount)]])
  {
    UnderNameAmountHeader([Some(Text(name)), Some(Number(amount))], Str(name), Int(amount));
  }

  /**
   * Blank columns between a name and a stored currency value: whether the row stores blank
   * cells there or no cells at all, all four columns get a value, the blank ones the missing
   * value.
   */
  lemma OneLineWithBlankColumn(name: string, amountCell: Option<TestCell>, dateCell: Option<TestCell>, currency: nat)
    requires amountCell == None || amountCell == Some(BlankCell)
    requires dateCell == None || dateCell == Some(BlankCell)
    ensures Extraction(TestConfig, TestCells(),
                       Success([FullHeader, [Some(Text(name)), amountCell, dateCell, Some(Number(currency))]]))
         == Success([map["NAME" := Str(name), "AMOUNT" := Missing, "DATE" := Missing, "CURRENCY" := Dec(currency)]])
  {
    UnderFullHeader([Some(Text(name)), amountCell, dateCell, Some(Number(currency))],
                    Str(name), Missing, Missing, Dec(currency));
  }

  /** A third stored cell beyond the two header columns is dropped from the record. */
  lemma UnidentifiedColumnIgnored(name: string, amount: nat, stray: TestCell)
    ensures var r := Extraction(TestConfig, TestCells(),
                                Success([Header, [Some(Text(name)), Some(Number(amount)), Some(stray)]]));
      && r == Success([map["NAME" := Str(name), "AMOUNT" := Int(amount)]])
      && |r.value[0].Keys| == 2
  {
    UnderNameAmountHeader([Some(Text(name)), Some(Number(amount)), Some(stray)], Str(name), Int(amount));
    assert map["NAME" := Str(name), "AMOUNT" := Int(amount)].Keys == {"NAME", "AMOUNT"};
  }

  /** A header holding only configured names and no data rows yields no records. */
  lemma HeaderOnly()
    ensures Extraction(TestConfig, TestCells(), Success([Header])) == Success([])
  {
    HeaderIsNameAmount();
  }

  /** Two data rows yield two records, in row order; a blank row between them yields none. */
  lemma TwoLinesAroundBlankLine(name1: string, amount1: nat, name2: string, amount2: nat)
    ensures Extraction(TestConfig, TestCells(),
                       Success([Header,
                                [Some(Text(name1)), Some(Number(amount1))],
                                [Some(BlankCell), None],
                                [Some(Text(name2)), Some(Number(amount2))]]))
         == Success([map["NAME" := Str(name1), "AMOUNT" := Int(amount1)],
                     map["NAME" := Str(name2), "AMOUNT" := Int(amount2)]])
  {
    var r1: Row<TestCell> := [Some(Text(name1)), Some(Number(amount1))];
    var blank: Row<TestCell> := [Some(BlankCell), None];
    var r2: Row<TestCell> := [Some(Text(name2)), Some(Number(amount2))];
    var rows: seq<Row<TestCell>> := [r1, blank, r2];
    TwoLinesRecords(name1, amount1, name2, amount2);
    UnderHeader(rows);
    assert [Header] + rows == [Header, r1, blank, r2];
  }

  /** The data pass over the two-line sheet. */
  lemma TwoLinesRecords(name1: string, amount1: nat, name2: string, amount2: nat)
    ensures Records(TestConfig, TestCells(), Names,
                    [[Some(Text(name1)), Some(Number(amount1))], [Some(BlankCell), None],
                     [Some(Text(name2)), Some(Number(amount2))]])
         == [map["NAME" := Str(name1), "AMOUNT" := Int(amount1)],
             map["NAME" := Str(name2), "AMOUNT" := Int(amount2)]]
  {
    var r1: Row<TestCell> := [Some(Text(name1)), Some(Number(amount1))];
    var blank: Row<TestCell> := [Some(BlankCell), None];
    var r2: Row<TestCell> := [Some(Text(name2)), Some(Number(amount2))];
    NameAmountRow(name1, amount1);
    NameAmountRow(name2, amount2);
    assert IsBlankRow(TestCells(), blank);
    RecordsAroundBlankRow(TestConfig, TestCells(), Names, r1, blank, r2);
  }

  /** A row holding a name and an amount is not blank, and its record holds both. */
  lemma NameAmountRow(name: string, amount: nat)
    ensures !IsBlankRow(TestCells(), [Some(Text(name)), Some(Number(amount))])
    ensures RowRecord(TestConfig, TestCells(), Names, [Some(Text(name)), Some(Number(amount))])
         == map["NAME" := Str(name), "AMOUNT" := Int(amount)]
  {
    var row: Row<TestCell> := [Some(Text(name)), Some(Number(amount))];
    assert TestCells().toString(row[0].value).Some?;
    TwoColumnRecord(row);
  }

  /** Under the test header, the extraction is the data pass over the remaining rows. */
  lemma UnderHeader(rows: seq<Row<TestCell>>)
    ensures Extraction(TestConfig, TestCells(), Success([Header] + rows))
         == Success(Records(TestConfig, TestCells(), Names, rows))
  {
    HeaderIsNameAmount();
    assert ([Header] + rows)[0] == Header && ([Header] + rows)[1..] == rows;
  }

  /** A blank row between two non-blank rows contributes no record. */
  lemma RecordsAroundBlankRow<C, T, V>(
    config: Config<T>, cells: Cells<C, T, V>, names: seq<string>, r1: Row<C>, blank: Row<C>, r2: Row<C>)
    requires AllKnown(config, names)
    requires !IsBlankRow(cells, r1) && IsBlankRow(cells, blank) && !IsBlankRow(cells, r2)
    ensures Records(config, cells, names, [r1, blank, r2])
         == [RowRecord(config, cells, names, r1), RowRecord(config, cells, names, r2)]
  {
    var rows := [r1, blank, r2];
    RecordsStep(config, cells, names, rows, 0);
    RecordsStep(config, cells, names, rows, 1);
    RecordsStep(config, cells, names, rows, 2);
    assert rows[..0] == [] && rows[..3] == rows;
  }

  /** A header naming a column the configuration lacks aborts with that column's name. */
  lemma InvalidColumn(data: Row<TestCell>)
    ensures Extraction(TestConfig, TestCells(), Success([[Some(Text("NAME")), Some(Text("INVALID"))], data]))
         == Failure(UnrecognizedColumn("INVALID"))
  {
  }

  /** The error for the `INVALID` column carries the message the invalid-column test expects. */
  lemma InvalidColumnMessage()
    ensures UnrecognizedColumnMessage("INVALID") == "A coluna 'INVALID' não é uma coluna reconhecida"
  {
    InvalidColumnOpening();
    InvalidColumnClosing("A coluna 'INVALID");
  }

  /** The message's opening, up to the column name. */
  lemma InvalidColumnOpening()
    ensures "A coluna '" + "INVALID" == "A coluna 'INVALID"
  {
  }

  /** The message's closing, after the column name. */
  lemma InvalidColumnClosing(opening: string)
    requires opening == "A coluna 'INVALID"
    ensures opening + "' não é uma coluna reconhecida" == "A coluna 'INVALID' não é uma coluna reconhecida"
  {
  }

  /**
   * Header names come from the header's stored cells, but data cells are read by position:
   * with a gap in the header, the second name takes the value in the second position.
   */
  lemma HeaderGapShiftsColumns(name: string, second: nat, third: nat)
    ensures Extraction(TestConfig, TestCells(),
                       Success([[Some(Text("NAME")), None, Some(Text("AMOUNT"))],
                                [Some(Text(name)), Some(Number(second)), Some(Number(third))]]))
         == Success([map["NAME" := Str(name), "AMOUNT" := Int(second)]])
  {
    var row: Row<TestCell> := [Some(Text(name)), Some(Number(second)), Some(Number(third))];
    GapHeaderNames();
    assert TestCells().toString(row[0].value).Some?;
    OneDataRowUnder([Some(Text("NAME")), None, Some(Text("AMOUNT"))], Names, row);
    TwoColumnRecord(row);
  }

  /** A header with an empty second position still names two columns. */
  lemma GapHeaderNames()
    ensures Columns(TestConfig, TestCells(), [Some(Text("NAME")), None, Some(Text("AMOUNT"))]) == Success(Names)
  {
    var header: Row<TestCell> := [Some(Text("NAME")), None, Some(Text("AMOUNT"))];
    assert header[..2][..1] == [header[0]] && [header[0]][..0] == [] && header[..2] == [header[0], None];
    assert PresentCells(header) == [Text("NAME"), Text("AMOUNT")];
    assert HeaderNames(TestCells(), header) == Names;
  }

  /**
   * Empty positions before a stored cell do not stop the conversion: a row whose only stored
   * cell is in the second column has a physical cell count of one, yet the blank cell
   * created in the first column raises the count, and both columns get a value.
   */
  lemma CreatedBlankCellExtendsRow(amount: nat)
    ensures PhysicalCellCount([None, Some(Number(amount))]) == 1
    ensures Extraction(TestConfig, TestCells(), Success([Header, [None, Some(Number(amount))]]))
         == Success([map["NAME" := Missing, "AMOUNT" := Int(amount)]])
  {
    var row: Row<TestCell> := [None, Some(Number(amount))];
    UnderNameAmountHeader(row, Missing, Int(amount));
    assert row[..1][..0] == [] && row[..1] == [None];
    assert PresentCells(row) == [Number(amount)];
  }
}
