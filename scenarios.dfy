/**
 * Clients of the table that use nothing but its contracts: inserting rows
 * and reading them back in order, and filling the table to capacity.
 */
module Scenarios {
  import opened Layout
  import opened RowCodec
  import opened PagedTable

  /**
   * Order preservation: inserting `input` row by row into a new table and
   * then scanning it returns exactly `input`, in insertion order, for any
   * sequence of well-formed rows that fits the table.
   */
  method InsertAllThenSelect(input: seq<Row>) returns (rows: seq<Row>)
    requires |input| <= TABLE_MAX_ROWS
    requires forall k :: 0 <= k < |input| ==> input[k].Valid()
    ensures rows == input
  {
    var t := new Table();
    var i := 0;
    while i < |input|
      invariant 0 <= i <= |input|
      invariant t.Valid() && fresh(t.Repr)
      invariant t.numRows == i && t.Contents == input[..i]
    {
      var result := t.ExecuteInsert(input[i]);
      assert input[..i + 1] == input[..i] + [input[i]];
      i := i + 1;
    }
    assert input[..i] == input;
    rows := t.ExecuteSelect();
  }

  /**
   * TABLE_MAX_ROWS insertions into a new table all succeed, after which
   * every page is allocated and the next insertion reports a full table
   * and leaves the count at TABLE_MAX_ROWS.
   */
  method FillToCapacity(row: Row) returns (t: Table, overflow: ExecuteResult)
    requires row.Valid()
    ensures fresh(t) && t.Valid()
    ensures t.numRows == TABLE_MAX_ROWS && t.Contents == seq(TABLE_MAX_ROWS, _ => row)
    ensures forall p :: 0 <= p < TABLE_MAX_PAGES ==> t.pages[p] != null
    ensures overflow == ExecuteTableFull
  {
    TableCapacity();
    LazyAllocationCounts();
    t := new Table();
    var i := 0;
    while i < TABLE_MAX_ROWS
      invariant 0 <= i <= TABLE_MAX_ROWS
      invariant t.Valid() && fresh(t.Repr)
      invariant t.numRows == i && t.Contents == seq(i, _ => row)
      invariant t.pages.Length == TABLE_MAX_PAGES && t.AllocatedOnDemand()
    {
      var result := t.ExecuteInsert(row);
      assert result == ExecuteSuccess;
      i := i + 1;
    }
    overflow := t.ExecuteInsert(row);
  }
}
