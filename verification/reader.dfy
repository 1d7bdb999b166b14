/** The source reader (`read_google_sheet`): takes the sheet's values, treats
    the first row as the header, pads each data row to the header's width and
    keeps the rows whose status cell (column T, zero-based index 19) is
    blank. Opening the sheet and the worksheet is left to the caller: the
    fetched values arrive as an input, `None` when fetching raised. */
module SheetReader {
  import opened Wrappers
  import opened Text
  import opened Seqs

  /** Zero-based index of the status column ("Tình trạng update", column T). */
  const StatusColumn: int := 19

  /** The sentinel status index reported when nothing could be read. */
  const NoStatusColumn: int := -1

  /** Sheet row number of the first data row: the header is row 1. */
  const FirstDataRow: int := 2

  /** One eligible sheet row: its 1-based row number, its cells padded to the
      header's width, and the status column it was checked against. */
  datatype RowRecord = RowRecord(rowNumber: int, cells: seq<string>, statusCol: int)

  /** What the reader returns: the eligible rows, the header row and the
      status column index. */
  datatype SheetRead = SheetRead(rows: seq<RowRecord>, header: seq<string>, statusCol: int)

  /** The `while len(row) < len(headers): row.append('')` loop: the row is
      kept as a prefix and only empty cells are appended, up to `width`. */
  function Pad(row: seq<string>, width: nat): (r: seq<string>)
    ensures |r| == if |row| < width then width else |row|
    ensures forall i | 0 <= i < |row| :: r[i] == row[i]
    ensures forall i | |row| <= i < |r| :: r[i] == ""
  {
    if |row| < width then row + seq(width - |row|, _ => "") else row
  }

  /** The status cell of a row; a row too short to have one reads as `''`. */
  function StatusCell(cells: seq<string>): string {
    if StatusColumn < |cells| then cells[StatusColumn] else ""
  }

  /** The row has not been marked yet: its status cell is whitespace only,
      which is when `row[19].strip()` is empty (see EligibleIffStripEmpty). */
  predicate IsEligible(cells: seq<string>) {
    IsBlank(StatusCell(cells))
  }

  /** The record the reader builds for the data row at zero-based position
      `i` of `data` (sheet row `i + 2`). */
  function RecordAt(width: nat, data: seq<seq<string>>, i: nat): RowRecord
    requires i < |data|
  {
    RowRecord(i + FirstDataRow, Pad(data[i], width), StatusColumn)
  }

  /** The eligibility test applied to a data row once padded to `width`. */
  function EligibleAt(width: nat): seq<string> -> bool {
    row => IsEligible(Pad(row, width))
  }

  /** The filtering loop over `all_data[1:]`: walks the data rows in order
      and keeps a record of each row that is eligible once padded. */
  function SelectRows(width: nat, data: seq<seq<string>>): (r: seq<RowRecord>)
    ensures |r| <= |data|
  {
    if data == [] then []
    else
      var n := |data| - 1;
      SelectRows(width, data[..n])
        + (if IsEligible(Pad(data[n], width)) then [RecordAt(width, data, n)] else [])
  }

  /** SelectRows keeps as many rows as the reference filter lists. */
  lemma {:induction false} SelectRowsLength(width: nat, data: seq<seq<string>>)
    ensures |SelectRows(width, data)| == |Positions(data, EligibleAt(width))|
  {
    if data != [] {
      var n := |data| - 1;
      SelectRowsLength(width, data[..n]);
      PositionsSnoc(data, EligibleAt(width));
    }
  }

  /** The `k`-th record SelectRows keeps is the record of the `k`-th
      position the reference filter lists. */
  lemma {:induction false} SelectRowsAt(width: nat, data: seq<seq<string>>, k: nat)
    requires k < |SelectRows(width, data)|
    ensures k < |Positions(data, EligibleAt(width))|
    ensures SelectRows(width, data)[k] == RecordAt(width, data, Positions(data, EligibleAt(width))[k])
  {
    var n := |data| - 1;
    var p := EligibleAt(width);
    var front := SelectRows(width, data[..n]);
    SelectRowsLength(width, data);
    PositionsSnoc(data, p);
    if k < |front| {
      SelectRowsAt(width, data[..n], k);
      var i := Positions(data[..n], p)[k];
      assert Positions(data, p)[k] == i;
      TakeIndex(data, n, i);
      assert RecordAt(width, data[..n], i) == RecordAt(width, data, i);
      assert SelectRows(width, data)[k] == front[k];
    } else {
      SelectRowsLength(width, data[..n]);
      assert p(data[n]) == IsEligible(Pad(data[n], width));
      assert k == |front| == |Positions(data[..n], p)|;
      assert SelectRows(width, data)[k] == RecordAt(width, data, n);
      assert Positions(data, p)[k] == n;
    }
  }

  /** SelectRows agrees with the reference filter: its records are those of
      the positions of the data rows that are eligible once padded, in
      order. */
  lemma SelectRowsFollowsPositions(width: nat, data: seq<seq<string>>)
    ensures |SelectRows(width, data)| == |Positions(data, EligibleAt(width))|
    ensures forall k | 0 <= k < |SelectRows(width, data)| ::
              SelectRows(width, data)[k] == RecordAt(width, data, Positions(data, EligibleAt(width))[k])
  {
    SelectRowsLength(width, data);
    forall k | 0 <= k < |SelectRows(width, data)| {
      SelectRowsAt(width, data, k);
    }
  }

  /** The selection misses no eligible row: the record of every data row
      that is eligible once padded is selected, at the returned place. */
  lemma EligibleIsSelected(width: nat, data: seq<seq<string>>, i: nat) returns (k: nat)
    requires i < |data| && IsEligible(Pad(data[i], width))
    ensures k < |SelectRows(width, data)| && SelectRows(width, data)[k] == RecordAt(width, data, i)
  {
    assert EligibleAt(width)(data[i]);
    k := PositionOf(data, EligibleAt(width), i);
    SelectRowsFollowsPositions(width, data);
  }

  /** `read_google_sheet` once the values are fetched: a failed fetch or an
      empty sheet gives `([], [], -1)`; otherwise the eligible data rows,
      the header and the status column 19. */
  function ReadSheet(fetched: Option<seq<seq<string>>>): (r: SheetRead)
    ensures fetched.None? || fetched.value == [] ==> r == SheetRead([], [], NoStatusColumn)
    ensures fetched.Some? && fetched.value != [] ==>
              && r.header == fetched.value[0]
              && r.statusCol == StatusColumn
              && |r.rows| <= |fetched.value| - 1
  {
    match fetched
    case None => SheetRead([], [], NoStatusColumn)
    case Some(all) =>
      if all == [] then SheetRead([], [], NoStatusColumn)
      else SheetRead(SelectRows(|all[0]|, all[1..]), all[0], StatusColumn)
  }

  /** The 1-based sheet row numbers of a list of records. */
  function RowNumbers(rows: seq<RowRecord>): (r: seq<int>)
    ensures |r| == |rows|
    ensures forall k | 0 <= k < |rows| :: r[k] == rows[k].rowNumber
  {
    seq(|rows|, k requires 0 <= k < |rows| => rows[k].rowNumber)
  }

  /** Padding does not change eligibility: a row too short to reach column T
      is eligible before padding, and padding only adds empty cells there. */
  lemma PadKeepsEligibility(row: seq<string>, width: nat)
    ensures IsEligible(Pad(row, width)) <==> IsEligible(row)
  {
    var p := Pad(row, width);
    if StatusColumn < |row| {
      assert p[StatusColumn] == row[StatusColumn];
    } else if StatusColumn < |p| {
      assert p[StatusColumn] == "";
    }
  }

  /** The script's test `not tinh_trang_value.strip()`: a row is eligible
      exactly when its stripped status cell is empty, a missing cell reading
      as `''`. */
  lemma EligibleIffStripEmpty(cells: seq<string>)
    ensures IsEligible(cells) <==> Strip(if StatusColumn < |cells| then cells[StatusColumn] else "") == ""
  {
  }

  /** On a non-empty sheet the records are the selection over the data rows
      (everything after the header), padded to the header's width. */
  lemma ReadSheetRows(sheet: seq<seq<string>>)
    requires sheet != []
    ensures ReadSheet(Some(sheet)).rows == SelectRows(|sheet[0]|, sheet[1..])
  {
  }

  /** One selected record, read back against the data rows: it is numbered
      by its data row, carries status column 19 and that row padded, and
      the row's own status cell is blank. */
  lemma SelectedRow(width: nat, data: seq<seq<string>>, k: nat)
    requires k < |SelectRows(width, data)|
    ensures var row := SelectRows(width, data)[k];
              && FirstDataRow <= row.rowNumber < |data| + FirstDataRow
              && row.statusCol == StatusColumn
              && row.cells == Pad(data[row.rowNumber - FirstDataRow], width)
              && IsEligible(data[row.rowNumber - FirstDataRow])
  {
    SelectRowsFollowsPositions(width, data);
    var i := Positions(data, EligibleAt(width))[k];
    assert EligibleAt(width)(data[i]);
    PadKeepsEligibility(data[i], width);
  }

  /** The selection keeps sheet order: row numbers strictly increase. */
  lemma SelectRowsOrdered(width: nat, data: seq<seq<string>>)
    ensures StrictlyIncreasing(RowNumbers(SelectRows(width, data)))
  {
    SelectRowsFollowsPositions(width, data);
    PositionsIncreasing(data, EligibleAt(width));
  }

  /** One record of the reader's result, stated on the sheet itself: its
      number is its sheet row (header = row 1), it carries status column 19
      and that row padded to the header's width, and the row's own status
      cell is blank. */
  lemma ReadSheetRow(sheet: seq<seq<string>>, k: nat)
    requires sheet != [] && k < |ReadSheet(Some(sheet)).rows|
    ensures var row := ReadSheet(Some(sheet)).rows[k];
              && FirstDataRow <= row.rowNumber <= |sheet|
              && row.statusCol == StatusColumn
              && row.cells == Pad(sheet[row.rowNumber - 1], |sheet[0]|)
              && IsEligible(sheet[row.rowNumber - 1])
  {
    ReadSheetRows(sheet);
    SelectedRow(|sheet[0]|, sheet[1..], k);
    var n := ReadSheet(Some(sheet)).rows[k].rowNumber;
    assert sheet[1..][n - FirstDataRow] == sheet[n - 1];
  }

  /** The reader's selection stated on the sheet: every record satisfies
      ReadSheetRow, and the row numbers strictly increase. */
  lemma ReadSheetSelects(sheet: seq<seq<string>>)
    requires sheet != []
    ensures StrictlyIncreasing(RowNumbers(ReadSheet(Some(sheet)).rows))
    ensures forall k | 0 <= k < |ReadSheet(Some(sheet)).rows| ::
              var row := ReadSheet(Some(sheet)).rows[k];
              && FirstDataRow <= row.rowNumber <= |sheet|
              && row.statusCol == StatusColumn
              && row.cells == Pad(sheet[row.rowNumber - 1], |sheet[0]|)
              && IsEligible(sheet[row.rowNumber - 1])
  {
    ReadSheetRows(sheet);
    SelectRowsOrdered(|sheet[0]|, sheet[1..]);
    forall k | 0 <= k < |ReadSheet(Some(sheet)).rows| {
      ReadSheetRow(sheet, k);
    }
  }

  /** The reader misses no row: every data row of the sheet whose own status
      cell is blank is selected, at the returned place. */
  lemma ReadSheetMissesNothing(sheet: seq<seq<string>>, n: int) returns (k: nat)
    requires sheet != [] && FirstDataRow <= n <= |sheet| && IsEligible(sheet[n - 1])
    ensures k < |ReadSheet(Some(sheet)).rows| && ReadSheet(Some(sheet)).rows[k].rowNumber == n
  {
    var width := |sheet[0]|;
    var data := sheet[1..];
    var i := n - FirstDataRow;
    assert IsEligible(Pad(data[i], width)) by {
      assert data[i] == sheet[n - 1];
      PadKeepsEligibility(data[i], width);
    }
    k := EligibleIsSelected(width, data, i);
    ReadSheetRows(sheet);
  }

  /** A selected row number belongs to a row whose own status cell is
      blank. */
  lemma SelectedIsEligible(width: nat, data: seq<seq<string>>, i: nat)
    requires i < |data| && i + FirstDataRow in RowNumbers(SelectRows(width, data))
    ensures IsEligible(data[i])
  {
    var rows := SelectRows(width, data);
    var k := IndexOf(RowNumbers(rows), i + FirstDataRow);
    SelectedRow(width, data, k);
  }

  /** A data row whose own status cell is blank has its row number
      selected. */
  lemma EligibleNumberSelected(width: nat, data: seq<seq<string>>, i: nat)
    requires i < |data| && IsEligible(data[i])
    ensures i + FirstDataRow in RowNumbers(SelectRows(width, data))
  {
    PadKeepsEligibility(data[i], width);
    var k := EligibleIsSelected(width, data, i);
    assert RowNumbers(SelectRows(width, data))[k] == i + FirstDataRow;
  }

  /** Data row `i` (sheet row `i + 2`) is selected exactly when its own
      status cell is blank. */
  lemma SelectRowsExactly(width: nat, data: seq<seq<string>>, i: nat)
    requires i < |data|
    ensures i + FirstDataRow in RowNumbers(SelectRows(width, data)) <==> IsEligible(data[i])
  {
    if IsEligible(data[i]) {
      EligibleNumberSelected(width, data, i);
    }
    if i + FirstDataRow in RowNumbers(SelectRows(width, data)) {
      SelectedIsEligible(width, data, i);
    }
  }

  /** Sheet row `n >= 2` is selected exactly when its own status cell is
      blank, whatever the rest of the row holds. */
  lemma ReadSheetSelectsExactly(sheet: seq<seq<string>>, n: int)
    requires sheet != [] && FirstDataRow <= n <= |sheet|
    ensures n in RowNumbers(ReadSheet(Some(sheet)).rows) <==> IsEligible(sheet[n - 1])
  {
    var data := sheet[1..];
    var i := n - FirstDataRow;
    assert RowNumbers(ReadSheet(Some(sheet)).rows) == RowNumbers(SelectRows(|sheet[0]|, data)) by {
      ReadSheetRows(sheet);
    }
    assert data[i] == sheet[n - 1];
    SelectRowsExactly(|sheet[0]|, data, i);
  }

  /** Reading a sheet that holds only a header selects nothing; so does
      reading an empty sheet or a failed fetch. */
  lemma ReadHeaderOnly(header: seq<string>)
    ensures ReadSheet(Some([header])) == SheetRead([], header, StatusColumn)
    ensures ReadSheet(Some([])) == SheetRead([], [], NoStatusColumn)
    ensures ReadSheet(None) == SheetRead([], [], NoStatusColumn)
  {
    assert [header][1..] == [];
  }
}
