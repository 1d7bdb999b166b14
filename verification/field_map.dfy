/** The record built for each row before it is posted (the inner loop of
    `send_to_caspio`): a column-index -> field-name table turns a row into a
    field-name -> value map, each value stripped of surrounding whitespace
    and each column past the end of the row silently left out. */
module FieldMap {
  import opened Text

  /** The mapping table as its entries in dictionary order: column index,
      field name. */
  type Table = seq<(nat, string)>

  /** The posted record: field name -> cell value. */
  type Record = map<string, string>

  /** The table the script is run with (`field_mappings` in `main`): columns
      A..S map to the nineteen fields of the target table. */
  const FieldMappings: Table := [
    (0, "Advertiser_ID"),
    (1, "Advertiser_Name"),
    (2, "Campaign_ID"),
    (3, "Ad_Group_ID"),
    (4, "Ad_ID"),
    (5, "Campaign_Name"),
    (6, "Ad_Group_Name"),
    (7, "Ad_Name"),
    (8, "Total_Cost_Spend"),
    (9, "Day"),
    (10, "Reach"),
    (11, "Impressions"),
    (12, "Frequency"),
    (13, "CPM"),
    (14, "Button_Click"),
    (15, "CPC"),
    (16, "CTR_All"),
    (17, "Creative_Page_ID"),
    (18, "ChiNhanh")
  ]

  /** Entry `j` of the table names a column the row has. */
  predicate InRange(table: Table, cells: seq<string>, j: int)
    requires 0 <= j < |table|
  {
    table[j].0 < |cells|
  }

  /** The field names of the entries whose column the row has. */
  function MappedNames(table: Table, cells: seq<string>): set<string> {
    set j | 0 <= j < |table| && InRange(table, cells, j) :: table[j].1
  }

  /** Dropping the last entry of the table drops at most its name. */
  lemma MappedNamesSnoc(table: Table, cells: seq<string>)
    requires table != []
    ensures var n := |table| - 1;
      MappedNames(table, cells)
      == MappedNames(table[..n], cells) + (if table[n].0 < |cells| then {table[n].1} else {})
  {
    var n := |table| - 1;
    var front := table[..n];
    forall f | f in MappedNames(table, cells)
      ensures f in MappedNames(front, cells) + (if table[n].0 < |cells| then {table[n].1} else {})
    {
      var j :| 0 <= j < |table| && InRange(table, cells, j) && table[j].1 == f;
      if j < n {
        assert front[j] == table[j];
      }
    }
    forall f | f in MappedNames(front, cells)
      ensures f in MappedNames(table, cells)
    {
      var j :| 0 <= j < n && InRange(front, cells, j) && front[j].1 == f;
      assert front[j] == table[j];
    }
  }

  /** The record built from `cells`: its fields are exactly the names of the
      entries whose column the row has. The entries are applied in table
      order, so when two entries name the same field the later one wins, as
      repeated assignment into a dictionary does (see BuildRecordLastWins). */
  function BuildRecord(table: Table, cells: seq<string>): (r: Record)
    ensures r.Keys == MappedNames(table, cells)
  {
    if table == [] then map[]
    else
      var n := |table| - 1;
      var rest := BuildRecord(table[..n], cells);
      MappedNamesSnoc(table, cells);
      if table[n].0 < |cells| then rest[table[n].1 := Strip(cells[table[n].0])] else rest
  }

  /** The last entry of the table touches only its own field, and only
      when the row has its column. */
  lemma BuildRecordStep(table: Table, cells: seq<string>, f: string)
    requires table != [] && f in BuildRecord(table[..|table| - 1], cells)
    requires !InRange(table, cells, |table| - 1) || table[|table| - 1].1 != f
    ensures f in BuildRecord(table, cells)
    ensures BuildRecord(table, cells)[f] == BuildRecord(table[..|table| - 1], cells)[f]
  {
  }

  /** An in-range last entry sets its field to its stripped cell. */
  lemma BuildRecordLast(table: Table, cells: seq<string>)
    requires table != [] && InRange(table, cells, |table| - 1)
    ensures table[|table| - 1].1 in BuildRecord(table, cells)
    ensures BuildRecord(table, cells)[table[|table| - 1].1] == Strip(cells[table[|table| - 1].0])
  {
  }

  /** The value of a field is the stripped cell of the last in-range entry
      that names it. */
  lemma {:induction false} BuildRecordLastWins(table: Table, cells: seq<string>, j: nat)
    requires j < |table| && InRange(table, cells, j)
    requires forall j' | j < j' < |table| :: InRange(table, cells, j') ==> table[j'].1 != table[j].1
    ensures table[j].1 in BuildRecord(table, cells)
    ensures BuildRecord(table, cells)[table[j].1] == Strip(cells[table[j].0])
  {
    var n := |table| - 1;
    if j < n {
      var front := table[..n];
      assert front[j] == table[j];
      assert forall j' | j < j' < n :: InRange(front, cells, j') ==> front[j'].1 != front[j].1 by {
        forall j' | j < j' < n
          ensures InRange(front, cells, j') ==> front[j'].1 != front[j].1
        {
          assert front[j'] == table[j'];
        }
      }
      BuildRecordLastWins(front, cells, j);
      BuildRecordStep(table, cells, table[j].1);
    } else {
      BuildRecordLast(table, cells);
    }
  }

  /** No two entries of the table name the same field. */
  predicate DistinctNames(table: Table) {
    forall i, j | 0 <= i < j < |table| :: table[i].1 != table[j].1
  }

  /** With distinct field names every in-range entry contributes its own
      stripped cell. */
  lemma BuildRecordDistinct(table: Table, cells: seq<string>, j: nat)
    requires DistinctNames(table) && j < |table| && InRange(table, cells, j)
    ensures BuildRecord(table, cells)[table[j].1] == Strip(cells[table[j].0])
  {
    BuildRecordLastWins(table, cells, j);
  }

  /** The script's table names nineteen different fields for columns 0..18. */
  lemma FieldMappingsShape()
    ensures |FieldMappings| == 19
    ensures forall j | 0 <= j < 19 :: FieldMappings[j].0 == j
    ensures DistinctNames(FieldMappings)
  {
  }

  /** For the script's table, field `j` is present exactly when the row has
      column `j`, and then holds that cell stripped: a row as wide as the
      nineteen mapped columns yields all nineteen fields. */
  lemma FieldMappingsRecord(cells: seq<string>, j: nat)
    requires j < 19
    ensures FieldMappings[j].1 in BuildRecord(FieldMappings, cells) <==> j < |cells|
    ensures j < |cells| ==> BuildRecord(FieldMappings, cells)[FieldMappings[j].1] == Strip(cells[j])
  {
    FieldMappingsShape();
    if j < |cells| {
      BuildRecordDistinct(FieldMappings, cells, j);
    }
    if FieldMappings[j].1 in BuildRecord(FieldMappings, cells) {
      var i :| 0 <= i < 19 && InRange(FieldMappings, cells, i) && FieldMappings[i].1 == FieldMappings[j].1;
      assert i == j;
    }
  }
}
