/** The write-back of a run (`update_google_sheet_status`): every successful
    transfer whose status column is T (index 19) gets "Copied" written into
    that column, so that the next run skips the row. The sheet calls become
    a list of cell writes; applying them to the sheet's values is modelled
    too, to state what the next read sees. */
module StatusWriter {
  import opened Seqs
  import opened Text
  import opened SheetReader
  import opened Sink

  /** The value written into the status column of a transferred row. */
  const Marker: string := "Copied"

  /** `update_cell(row, col, value)`: 1-based row and column. */
  datatype CellWrite = CellWrite(row: int, col: int, value: string)

  /** The guard of the loop: a transfer is written back only when its status
      column is index 19; any other column is reported and skipped. */
  predicate PassesGuard(t: Transfer) {
    t.statusCol == StatusColumn
  }

  /** The write for a transfer that passes the guard: the status column,
      1-based, set to the marker. */
  function WriteFor(t: Transfer): CellWrite {
    CellWrite(t.rowNumber, t.statusCol + 1, Marker)
  }

  /** The writes issued for the successful transfers, in their order; an
      empty list issues none. Every write sets column T (1-based 20) to the
      marker, because only transfers with status column 19 pass the guard. */
  function WritePlan(transfers: seq<Transfer>): (r: seq<CellWrite>)
    ensures |r| <= |transfers|
    ensures forall k | 0 <= k < |r| :: r[k].col == StatusColumn + 1 && r[k].value == Marker
  {
    if transfers == [] then []
    else
      var n := |transfers| - 1;
      WritePlan(transfers[..n]) + (if PassesGuard(transfers[n]) then [WriteFor(transfers[n])] else [])
  }

  /** The plan has one write per transfer that passes the guard. */
  lemma {:induction false} WritePlanLength(transfers: seq<Transfer>)
    ensures |WritePlan(transfers)| == |Positions(transfers, PassesGuard)|
  {
    if transfers != [] {
      var n := |transfers| - 1;
      WritePlanLength(transfers[..n]);
      PositionsSnoc(transfers, PassesGuard);
    }
  }

  /** The `k`-th write is that of the `k`-th transfer passing the guard. */
  lemma {:induction false} WritePlanAt(transfers: seq<Transfer>, k: nat)
    requires k < |WritePlan(transfers)|
    ensures k < |Positions(transfers, PassesGuard)|
    ensures WritePlan(transfers)[k] == WriteFor(transfers[Positions(transfers, PassesGuard)[k]])
  {
    var n := |transfers| - 1;
    var front := WritePlan(transfers[..n]);
    WritePlanLength(transfers);
    PositionsSnoc(transfers, PassesGuard);
    if k < |front| {
      WritePlanAt(transfers[..n], k);
      var i := Positions(transfers[..n], PassesGuard)[k];
      assert Positions(transfers, PassesGuard)[k] == i;
      TakeIndex(transfers, n, i);
      assert WritePlan(transfers)[k] == front[k];
    } else {
      WritePlanLength(transfers[..n]);
      assert k == |front| == |Positions(transfers[..n], PassesGuard)|;
      assert WritePlan(transfers)[k] == WriteFor(transfers[n]);
      assert Positions(transfers, PassesGuard)[k] == n;
    }
  }

  /** When every transfer passes the guard (the reader always reports status
      column 19), the plan is exactly one write per transfer, in order, each
      setting column 20 of the transfer's row to "Copied". */
  lemma WritePlanAllPass(transfers: seq<Transfer>)
    requires forall k | 0 <= k < |transfers| :: transfers[k].statusCol == StatusColumn
    ensures |WritePlan(transfers)| == |transfers|
    ensures forall k | 0 <= k < |transfers| ::
              WritePlan(transfers)[k] == CellWrite(transfers[k].rowNumber, 20, "Copied")
  {
    PositionsOfAll(transfers, PassesGuard);
    WritePlanLength(transfers);
    forall k | 0 <= k < |transfers|
      ensures WritePlan(transfers)[k] == CellWrite(transfers[k].rowNumber, 20, "Copied")
    {
      WritePlanAt(transfers, k);
    }
  }

  /** A transfer whose status column is not 19 adds no write. */
  lemma WritePlanSkipsOtherColumns(transfers: seq<Transfer>, t: Transfer)
    requires t.statusCol != StatusColumn
    ensures WritePlan(transfers + [t]) == WritePlan(transfers)
  {
    assert (transfers + [t])[..|transfers|] == transfers;
  }

  /** Some write of the list targets sheet row `n`. */
  predicate WritesRow(writes: seq<CellWrite>, n: int) {
    exists k | 0 <= k < |writes| :: writes[k].row == n
  }

  /** `update_cell` on the sheet's values: a row that is too short is padded
      with empty cells up to the column first. A write outside the rows the
      sheet holds, or to a column before the first, leaves the values as they
      are. */
  function SetCell(sheet: seq<seq<string>>, w: CellWrite): (r: seq<seq<string>>)
    ensures |r| == |sheet|
    ensures forall i | 0 <= i < |sheet| && i != w.row - 1 :: r[i] == sheet[i]
    ensures 1 <= w.row <= |sheet| && 1 <= w.col ==>
              var old_row := sheet[w.row - 1]; var new_row := r[w.row - 1];
              && |new_row| == (if |old_row| < w.col then w.col else |old_row|)
              && new_row[w.col - 1] == w.value
              && forall j | 0 <= j < |new_row| && j != w.col - 1 ::
                   new_row[j] == (if j < |old_row| then old_row[j] else "")
  {
    if 1 <= w.row <= |sheet| && 1 <= w.col then
      var row := Pad(sheet[w.row - 1], w.col);
      sheet[w.row - 1 := row[w.col - 1 := w.value]]
    else sheet
  }

  /** The writes applied one after the other. */
  function ApplyWrites(sheet: seq<seq<string>>, writes: seq<CellWrite>): (r: seq<seq<string>>)
    ensures |r| == |sheet|
    ensures forall i | 0 <= i < |sheet| && !WritesRow(writes, i + 1) :: r[i] == sheet[i]
    decreases |writes|
  {
    if writes == [] then sheet
    else
      assert forall n | WritesRow(writes[1..], n) :: WritesRow(writes, n) by {
        forall n | WritesRow(writes[1..], n) ensures WritesRow(writes, n) {
          var k :| 0 <= k < |writes[1..]| && writes[1..][k].row == n;
          assert writes[k + 1].row == n;
        }
      }
      ApplyWrites(SetCell(sheet, writes[0]), writes[1..])
  }

  /** The marker is not whitespace, so a marked status cell is not blank. */
  lemma MarkerNotBlank()
    ensures !IsBlank(Marker)
  {
    assert !IsSpace(Marker[0]);
  }

  /** A write of the marker into column 20 of row `n` makes that row
      ineligible, and leaves the eligibility of every other row as it was. */
  lemma SetCellEligibility(sheet: seq<seq<string>>, w: CellWrite, n: int)
    requires w.col == StatusColumn + 1 && w.value == Marker && 1 <= n <= |sheet|
    ensures 1 <= w.row <= |sheet| ==>
              (IsEligible(SetCell(sheet, w)[n - 1]) <==> IsEligible(sheet[n - 1]) && w.row != n)
    ensures !(1 <= w.row <= |sheet|) ==> SetCell(sheet, w) == sheet
  {
    if 1 <= w.row <= |sheet| && w.row == n {
      MarkerNotBlank();
      assert StatusCell(SetCell(sheet, w)[n - 1]) == Marker;
    }
  }

  /** After the writes, sheet row `n` is eligible exactly when it was before
      and no write of the marker into column 20 targeted it. */
  lemma {:induction false} ApplyWritesEligibility(sheet: seq<seq<string>>, writes: seq<CellWrite>, n: int)
    requires forall k | 0 <= k < |writes| :: writes[k].col == StatusColumn + 1 && writes[k].value == Marker
    requires forall k | 0 <= k < |writes| :: 1 <= writes[k].row <= |sheet|
    requires 1 <= n <= |sheet|
    ensures IsEligible(ApplyWrites(sheet, writes)[n - 1]) <==> IsEligible(sheet[n - 1]) && !WritesRow(writes, n)
    decreases |writes|
  {
    if writes != [] {
      var next := SetCell(sheet, writes[0]);
      SetCellEligibility(sheet, writes[0], n);
      ApplyWritesEligibility(next, writes[1..], n);
      if WritesRow(writes[1..], n) {
        var k :| 0 <= k < |writes[1..]| && writes[1..][k].row == n;
        assert writes[k + 1].row == n;
      }
      if WritesRow(writes, n) && writes[0].row != n {
        var k :| 0 <= k < |writes| && writes[k].row == n;
        assert writes[1..][k - 1].row == n;
      }
    }
  }

  /** The header row survives writes that all target data rows. */
  lemma {:induction false} ApplyWritesKeepsHeader(sheet: seq<seq<string>>, writes: seq<CellWrite>)
    requires sheet != []
    requires forall k | 0 <= k < |writes| :: writes[k].row != 1
    ensures ApplyWrites(sheet, writes)[0] == sheet[0]
    decreases |writes|
  {
    if writes != [] {
      ApplyWritesKeepsHeader(SetCell(sheet, writes[0]), writes[1..]);
    }
  }
}
