/**
 * What the importer promises about its result, proved of the specification functions the
 * importer's methods are shown equal to.
 */
module ExcelProperties {
  import opened Wrappers
  import opened Sheets
  import opened Excel

  // ---------------------------------------------------------------------------
  // Blank rows

  /** None of the given cells has a display string. */
  predicate NoneDisplayed<C, T, V>(cells: Cells<C, T, V>, cs: seq<C>) {
    forall j :: 0 <= j < |cs| ==> cells.toString(cs[j]).None?
  }

  /** Blankness read over the cells the row's cell iterator yields agrees with blankness read by position. */
  lemma {:induction false} BlankRowIffNoneDisplayed<C, T, V>(cells: Cells<C, T, V>, row: Row<C>)
    ensures IsBlankRow(cells, row) <==> NoneDisplayed(cells, PresentCells(row))
  {
    if |row| > 0 {
      var prefix, last := row[..|row| - 1], row[|row| - 1];
      BlankRowIffNoneDisplayed(cells, prefix);
      assert forall i :: 0 <= i < |prefix| ==> prefix[i] == row[i];
      var ps, tail := PresentCells(prefix), if last.Some? then [last.value] else [];
      assert PresentCells(row) == ps + tail;
      assert forall j :: 0 <= j < |ps| ==> (ps + tail)[j] == ps[j];
      assert forall j :: 0 <= j < |tail| ==> (ps + tail)[|ps| + j] == tail[j];
      assert NoneDisplayed(cells, ps + tail) <==> NoneDisplayed(cells, ps) && NoneDisplayed(cells, tail);
      if last.Some? {
        assert tail[0] == last.value;
      }
      assert NoneDisplayed(cells, tail) <==> (last.Some? ==> cells.toString(last.value).None?);
      assert IsBlankRow(cells, row)
         <==> IsBlankRow(cells, prefix) && (last.Some? ==> cells.toString(last.value).None?);
    }
  }

  /** A row with no stored cell is blank, so it never yields a record. */
  lemma RowWithoutCellsIsBlank<C, T, V>(cells: Cells<C, T, V>, row: Row<C>)
    requires PhysicalCellCount(row) == 0
    ensures IsBlankRow(cells, row)
  {
    BlankRowIffNoneDisplayed(cells, row);
  }

  // ---------------------------------------------------------------------------
  // One record

  /** Position `i` holds the last occurrence of its name among the first `n` header names. */
  predicate LastOccurrence(names: seq<string>, i: nat, n: nat)
    requires i < n <= |names|
  {
    forall j :: i < j < n ==> names[j] != names[i]
  }

  /** A name's value is the one converted from its last position: later puts under the same name overwrite. */
  lemma {:induction false} RecordUpToValue<C, T, V>(
    config: Config<T>, cells: Cells<C, T, V>, names: seq<string>, row: Row<C>, n: nat, i: nat)
    requires n <= |names| && AllKnown(config, names)
    requires i < n && LastOccurrence(names, i, n)
    ensures names[i] in RecordUpTo(config, cells, names, row, n)
    ensures RecordUpTo(config, cells, names, row, n)[names[i]] == Converted(config, cells, names, row, i)
  {
    if i < n - 1 {
      assert LastOccurrence(names, i, n - 1);
      RecordUpToValue(config, cells, names, row, n - 1, i);
    }
  }

  /** With distinct column names every converted position contributes its own key. */
  lemma {:induction false} RecordUpToSizeDistinct<C, T, V>(
    config: Config<T>, cells: Cells<C, T, V>, names: seq<string>, row: Row<C>, n: nat)
    requires n <= |names| && AllKnown(config, names)
    requires forall i, j :: 0 <= i < j < |names| ==> names[i] != names[j]
    ensures |RecordUpTo(config, cells, names, row, n)| == n
  {
    if n > 0 {
      RecordUpToSizeDistinct(config, cells, names, row, n - 1);
      RecordUpToKeys(config, cells, names, row, n - 1);
      assert names[n - 1] !in RecordUpTo(config, cells, names, row, n - 1);
    }
  }

  /**
   * The record of a data row: its keys are the first `Width` column names, and each name
   * maps to the conversion, under that column's type, of the cell at the name's last
   * position, where a position with no stored cell is converted as a blank cell.
   */
  lemma RowRecordShape<C, T, V>(config: Config<T>, cells: Cells<C, T, V>, names: seq<string>, row: Row<C>)
    requires AllKnown(config, names)
    ensures var r, w := RowRecord(config, cells, names, row), Width(names, row);
      && r.Keys == (set i | 0 <= i < w :: names[i])
      && |r| <= w
      && forall i :: 0 <= i < w && LastOccurrence(names, i, w) ==>
           r[names[i]] == cells.toObject(CellAt(cells, row, i), config[names[i]])
  {
    var w := Width(names, row);
    RecordUpToKeys(config, cells, names, row, w);
    forall i | 0 <= i < w && LastOccurrence(names, i, w)
      ensures RowRecord(config, cells, names, row)[names[i]] == cells.toObject(CellAt(cells, row, i), config[names[i]])
    {
      RecordUpToValue(config, cells, names, row, w, i);
    }
  }

  /**
   * A column gets a value whenever the row stores a cell at its position or at any later
   * position: the blank cells created at empty positions keep the loop going up to the
   * row's last stored cell.
   */
  lemma ColumnsUpToLastStoredCell<C, T, V>(
    config: Config<T>, cells: Cells<C, T, V>, names: seq<string>, row: Row<C>, i: nat, j: nat)
    requires AllKnown(config, names)
    requires i < |names| && i <= j < |row| && row[j].Some?
    ensures names[i] in RowRecord(config, cells, names, row)
  {
    RecordUpToKeys(config, cells, names, row, Width(names, row));
    assert i < Width(names, row);
  }

  /** A column name none of whose positions has a stored cell at or after it gets no value. */
  lemma NoColumnPastLastStoredCell<C, T, V>(
    config: Config<T>, cells: Cells<C, T, V>, names: seq<string>, row: Row<C>, name: string)
    requires AllKnown(config, names)
    requires forall k, j :: 0 <= k < |names| && k <= j < |row| && names[k] == name ==> row[j].None?
    ensures name !in RowRecord(config, cells, names, row)
  {
    RecordUpToKeys(config, cells, names, row, Width(names, row));
  }

  /** With distinct column names a record has exactly `Width` entries. */
  lemma RowRecordSizeDistinct<C, T, V>(config: Config<T>, cells: Cells<C, T, V>, names: seq<string>, row: Row<C>)
    requires AllKnown(config, names)
    requires forall i, j :: 0 <= i < j < |names| ==> names[i] != names[j]
    ensures |RowRecord(config, cells, names, row)| == Width(names, row)
  {
    RecordUpToSizeDistinct(config, cells, names, row, Width(names, row));
  }

  // ---------------------------------------------------------------------------
  // The data pass

  /** The records are those of the non-blank rows, one each, in row order. */
  lemma {:induction false} RecordsFollowKeptRows<C, T, V>(
    config: Config<T>, cells: Cells<C, T, V>, names: seq<string>, rows: seq<Row<C>>)
    requires AllKnown(config, names)
    ensures var out, ks := Records(config, cells, names, rows), KeptRows(cells, rows);
      && |out| == |ks|
      && forall j :: 0 <= j < |out| ==> out[j] == RowRecord(config, cells, names, rows[ks[j]])
  {
    if |rows| > 0 {
      var prefix, last := rows[..|rows| - 1], rows[|rows| - 1];
      RecordsFollowKeptRows(config, cells, names, prefix);
      var out, ks := Records(config, cells, names, rows), KeptRows(cells, rows);
      var outP, ksP := Records(config, cells, names, prefix), KeptRows(cells, prefix);
      if IsBlankRow(cells, last) {
        assert out == outP && ks == ksP;
      } else {
        assert out == outP + [RowRecord(config, cells, names, last)];
        assert ks == ksP + [|rows| - 1];
      }
      forall j | 0 <= j < |out|
        ensures out[j] == RowRecord(config, cells, names, rows[ks[j]])
      {
        if j < |outP| {
          assert out[j] == outP[j] && ks[j] == ksP[j];
          assert prefix[ksP[j]] == rows[ks[j]];
        }
      }
    }
  }

  // ---------------------------------------------------------------------------
  // The whole extraction

  /** A sheet without rows yields no records and no error. */
  lemma EmptySheetYieldsNoRecords<C, T, V>(config: Config<T>, cells: Cells<C, T, V>)
    ensures Extraction(config, cells, Success([])) == Success([])
  {
  }

  /** A sheet holding only an acceptable header row yields no records and no error. */
  lemma HeaderOnlySheetYieldsNoRecords<C, T, V>(config: Config<T>, cells: Cells<C, T, V>, sheet: Sheet<C>)
    requires |sheet| == 1 && AllKnown(config, HeaderNames(cells, sheet[0]))
    ensures Extraction(config, cells, Success(sheet)) == Success([])
  {
  }

  /** A header whose leftmost unknown name is at `k` aborts the extraction with that name, before any row is read. */
  lemma UnknownColumnAborts<C, T, V>(config: Config<T>, cells: Cells<C, T, V>, sheet: Sheet<C>, k: nat)
    requires |sheet| > 0 && FirstUnknownAt(config, HeaderNames(cells, sheet[0]), k)
    ensures Extraction(config, cells, Success(sheet))
         == Failure(UnrecognizedColumn(HeaderNames(cells, sheet[0])[k]))
  {
  }

  /**
   * On a sheet with a header row the extraction fails exactly when some header name is not
   * configured; otherwise it yields, in row order, one record per non-blank row after the
   * header, keyed by the header's names.
   */
  lemma ExtractionOfSheet<C, T, V>(config: Config<T>, cells: Cells<C, T, V>, sheet: Sheet<C>)
    requires |sheet| > 0
    ensures var r, names := Extraction(config, cells, Success(sheet)), HeaderNames(cells, sheet[0]);
      && (r.Success? <==> AllKnown(config, names))
      && (r.Failure? ==> exists k :: FirstUnknownAt(config, names, k) && r.error == UnrecognizedColumn(names[k]))
      && (r.Success? ==>
            var ks := KeptRows(cells, sheet[1..]);
            && |r.value| == |ks|
            && forall j :: 0 <= j < |ks| ==>
                 && !IsBlankRow(cells, sheet[1 + ks[j]])
                 && r.value[j] == RowRecord(config, cells, names, sheet[1 + ks[j]]))
  {
    var names := HeaderNames(cells, sheet[0]);
    if AllKnown(config, names) {
      RecordsFollowKeptRows(config, cells, names, sheet[1..]);
    }
  }

  /** A source that cannot be read fails the extraction with a source-access error and no records. */
  lemma UnreadableSourceFails<C, T, V>(config: Config<T>, cells: Cells<C, T, V>, cause: string)
    ensures Extraction<C, T, V>(config, cells, Failure(cause)) == Failure(SourceAccess(cause))
  {
  }
}
