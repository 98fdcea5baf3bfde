/**
 * The spreadsheet as the importer sees it once the workbook has been read: the rows of
 * the first sheet, each row a sequence of column positions that may or may not hold a
 * stored cell, and the cell operations the importer calls but does not define.
 */
module Sheets {
  import opened Wrappers

  /** A row indexed by column position; `None` is a position with no stored cell. */
  type Row<C> = seq<Option<C>>

  /** The rows of the first sheet, in the order the sheet's row iterator yields them. */
  type Sheet<C> = seq<Row<C>>

  /**
   * The cell operations the importer relies on, left uninterpreted:
   *  - toString: the `Cells.toString` helper, a display string or none for a blank cell;
   *  - stringCellValue: the spreadsheet library's `getStringCellValue`, read on header cells;
   *  - toObject: the `Cells.toObject` helper, converting a cell to the value of a column type;
   *  - blank: the blank cell the library synthesises for a position with no stored cell.
   */
  datatype Cells<!C, !T, V> = Cells(
    toString: C -> Option<string>,
    stringCellValue: C -> string,
    toObject: (C, T) -> V,
    blank: C)

  /** The cells a row's cell iterator yields: its stored cells, left to right. */
  function PresentCells<C>(row: Row<C>): (cs: seq<C>)
    ensures |cs| <= |row|
  {
    if |row| == 0 then []
    else
      var last := row[|row| - 1];
      PresentCells(row[..|row| - 1]) + (if last.Some? then [last.value] else [])
  }

  /** The number of stored cells of a row (the library's physical cell count). */
  function PhysicalCellCount<C>(row: Row<C>): nat {
    |PresentCells(row)|
  }

  /** The cell at position `i`, or the synthesised blank cell where the row stores none. */
  function CellAt<C, T, V>(cells: Cells<C, T, V>, row: Row<C>, i: nat): C {
    if i < |row| && row[i].Some? then row[i].value else cells.blank
  }

  /** One past the last position of the row that stores a cell; 0 when the row stores none. */
  function StoredEnd<C>(row: Row<C>): (e: nat)
    ensures e <= |row|
    ensures e > 0 ==> row[e - 1].Some?
    ensures forall i :: e <= i < |row| ==> row[i].None?
  {
    if |row| == 0 then 0
    else if row[|row| - 1].Some? then |row|
    else StoredEnd(row[..|row| - 1])
  }

  /**
   * The row after `getCell(i, CREATE_NULL_AS_BLANK)`: where position `i` stores no cell, the
   * library creates the blank cell there, so the row's physical cell count grows by one.
   */
  function CreateNullAsBlank<C, T, V>(cells: Cells<C, T, V>, row: Row<C>, i: nat): (filled: Row<C>)
    requires i < |row|
    ensures |filled| == |row| && filled[i] == Some(CellAt(cells, row, i))
    ensures forall j :: 0 <= j < |row| && j != i ==> filled[j] == row[j]
    ensures PhysicalCellCount(filled) == PhysicalCellCount(row) + (if row[i].None? then 1 else 0)
  {
    StoreCount(row, i, CellAt(cells, row, i));
    row[i := Some(CellAt(cells, row, i))]
  }

  /** Extending a row by one position extends its stored cells by that position's cell, if any. */
  lemma PresentCellsStep<C>(row: Row<C>, k: nat)
    requires k < |row|
    ensures PresentCells(row[..k + 1])
         == PresentCells(row[..k]) + (if row[k].Some? then [row[k].value] else [])
  {
    assert row[..k + 1][..k] == row[..k];
  }

  /** The stored cells of a row prefix are a prefix of the row's stored cells. */
  lemma {:induction false} PresentCellsPrefix<C>(row: Row<C>, k: nat)
    requires k <= |row|
    ensures PresentCells(row[..k]) <= PresentCells(row)
    decreases |row| - k
  {
    if k < |row| {
      PresentCellsPrefix(row, k + 1);
      PresentCellsStep(row, k);
      assert row[..|row|] == row;
    } else {
      assert row[..k] == row;
    }
  }

  /** In a row that stores a cell at every position, the iterator yields exactly those cells. */
  lemma {:induction false} PresentCellsOfStoredRow<C>(row: Row<C>)
    requires forall i :: 0 <= i < |row| ==> row[i].Some?
    ensures |PresentCells(row)| == |row|
    ensures forall i :: 0 <= i < |row| ==> PresentCells(row)[i] == row[i].value
  {
    if |row| > 0 {
      var prefix := row[..|row| - 1];
      PresentCellsOfStoredRow(prefix);
      assert PresentCells(row) == PresentCells(prefix) + [row[|row| - 1].value];
    }
  }

  /** The stored cells of two rows side by side are those of the first, then those of the second. */
  lemma {:induction false} PresentCellsAppend<C>(a: Row<C>, b: Row<C>)
    ensures PresentCells(a + b) == PresentCells(a) + PresentCells(b)
    decreases |b|
  {
    if |b| == 0 {
      assert a + b == a;
    } else {
      var prefix := b[..|b| - 1];
      PresentCellsAppend(a, prefix);
      assert (a + b)[..|a + b| - 1] == a + prefix;
      assert (a + b)[|a + b| - 1] == b[|b| - 1];
    }
  }

  /** A row has no stored cell exactly when every position is empty. */
  lemma {:induction false} NoStoredCell<C>(row: Row<C>)
    ensures PhysicalCellCount(row) == 0 <==> forall i :: 0 <= i < |row| ==> row[i].None?
  {
    if |row| > 0 {
      var prefix := row[..|row| - 1];
      NoStoredCell(prefix);
      assert forall i :: 0 <= i < |prefix| ==> prefix[i] == row[i];
    }
  }

  /** Storing a cell at position `i` adds one to the physical count, unless a cell was stored there already. */
  lemma StoreCount<C>(row: Row<C>, i: nat, c: C)
    requires i < |row|
    ensures PhysicalCellCount(row[i := Some(c)]) == PhysicalCellCount(row) + (if row[i].None? then 1 else 0)
  {
    var filled := row[i := Some(c)];
    assert row == row[..i] + [row[i]] + row[i + 1..];
    assert filled == row[..i] + [Some(c)] + row[i + 1..];
    PresentCellsAppend(row[..i] + [row[i]], row[i + 1..]);
    PresentCellsAppend(row[..i], [row[i]]);
    PresentCellsAppend(row[..i] + [Some(c)], row[i + 1..]);
    PresentCellsAppend(row[..i], [Some(c)]);
    assert [row[i]][..0] == [] && [Some(c)][..0] == [];
  }

  /** Every stored cell lies below `StoredEnd`, so the physical count never exceeds it. */
  lemma PhysicalCountBelowStoredEnd<C>(row: Row<C>)
    ensures PhysicalCellCount(row) <= StoredEnd(row)
  {
    var e := StoredEnd(row);
    assert row == row[..e] + row[e..];
    PresentCellsAppend(row[..e], row[e..]);
    NoStoredCell(row[e..]);
  }

  /**
   * `r` is `row` after blank cells have been created at its empty positions below `n`:
   * every position below `n` stores that position's cell, the rest are untouched.
   */
  ghost predicate FilledBelow<C, T, V>(cells: Cells<C, T, V>, row: Row<C>, r: Row<C>, n: nat) {
    && |r| == |row| && n <= |row|
    && (forall j :: 0 <= j < n ==> r[j] == Some(CellAt(cells, row, j)))
    && (forall j :: n <= j < |row| ==> r[j] == row[j])
  }

  /** Reading position `n` with `CREATE_NULL_AS_BLANK` extends the filled prefix by one and yields that position's cell. */
  lemma FillStep<C, T, V>(cells: Cells<C, T, V>, row: Row<C>, r: Row<C>, n: nat)
    requires FilledBelow(cells, row, r, n) && n < |row|
    ensures FilledBelow(cells, row, CreateNullAsBlank(cells, r, n), n + 1)
    ensures CreateNullAsBlank(cells, r, n)[n] == Some(CellAt(cells, row, n))
  {
  }

  /**
   * Once blank cells fill the empty positions below `n`, the physical count exceeds `n`
   * exactly when the original row stores a cell at `n` or beyond.
   */
  lemma FilledRowCount<C, T, V>(cells: Cells<C, T, V>, row: Row<C>, r: Row<C>, n: nat)
    requires FilledBelow(cells, row, r, n)
    ensures n < PhysicalCellCount(r) <==> n < StoredEnd(row)
  {
    FilledPrefixCount(row, r, n);
    StoredFrom(row, n);
  }

  /** The filled prefix contributes one stored cell per position. */
  lemma FilledPrefixCount<C>(row: Row<C>, r: Row<C>, n: nat)
    requires |r| == |row| && n <= |row|
    requires forall i :: 0 <= i < n ==> r[i].Some?
    requires forall i :: n <= i < |row| ==> r[i] == row[i]
    ensures PhysicalCellCount(r) == n + PhysicalCellCount(row[n..])
  {
    assert r == r[..n] + r[n..];
    PresentCellsAppend(r[..n], r[n..]);
    PresentCellsOfStoredRow(r[..n]);
    assert r[n..] == row[n..];
  }

  /** The positions from `n` on store a cell exactly when `n` is below `StoredEnd`. */
  lemma StoredFrom<C>(row: Row<C>, n: nat)
    requires n <= |row|
    ensures 0 < PhysicalCellCount(row[n..]) <==> n < StoredEnd(row)
  {
    NoStoredCell(row[n..]);
    var e := StoredEnd(row);
    if n < e {
      assert row[n..][e - 1 - n] == row[e - 1];
    } else {
      assert forall i :: 0 <= i < |row[n..]| ==> row[n..][i] == row[n + i];
    }
  }
}
