/**
 * The paged table: 100 lazily allocated 4096-byte pages and a row counter.
 * Row `n` lives on page `n / ROWS_PER_PAGE` at byte offset
 * `(n % ROWS_PER_PAGE) * ROW_SIZE`; rows `0 .. numRows - 1` are the stored rows.
 */
module PagedTable {
  import opened Layout
  import opened RowCodec

  datatype ExecuteResult = ExecuteSuccess | ExecuteTableFull

  /** The page that holds row `rowNum`: the row lies in that page's range of row numbers. */
  function PageOf(rowNum: nat): (page: nat)
    ensures page * ROWS_PER_PAGE <= rowNum < page * ROWS_PER_PAGE + ROWS_PER_PAGE
    ensures rowNum < TABLE_MAX_ROWS ==> page < TABLE_MAX_PAGES
  {
    TableCapacity();
    rowNum / ROWS_PER_PAGE
  }

  /**
   * The byte offset of row `rowNum` inside its page: the row's position on
   * its page times the row size, and the whole row fits inside the page.
   */
  function ByteOffset(rowNum: nat): (offset: nat)
    ensures offset == (rowNum - PageOf(rowNum) * ROWS_PER_PAGE) * ROW_SIZE
    ensures offset + ROW_SIZE <= PAGE_SIZE
  {
    TableCapacity();
    (rowNum % ROWS_PER_PAGE) * ROW_SIZE
  }

  /** Row `rowNum` lies in the row range of exactly one page. */
  lemma PageOfUnique(rowNum: nat, page: nat)
    requires page * ROWS_PER_PAGE <= rowNum < page * ROWS_PER_PAGE + ROWS_PER_PAGE
    ensures PageOf(rowNum) == page
  {
    TableCapacity();
    var q := PageOf(rowNum);
    assert page * 14 < (q + 1) * 14 && q * 14 < (page + 1) * 14;
  }

  /** Distinct row numbers get disjoint slots: another page, or non-overlapping byte ranges of one page. */
  lemma SlotsDisjoint(m: nat, n: nat)
    requires m != n
    ensures PageOf(m) != PageOf(n)
            || ByteOffset(m) + ROW_SIZE <= ByteOffset(n)
            || ByteOffset(n) + ROW_SIZE <= ByteOffset(m)
  {
    if PageOf(m) == PageOf(n) {
      var base := PageOf(m) * ROWS_PER_PAGE;
      if m < n {
        assert ByteOffset(n) - ByteOffset(m) == (n - m) * ROW_SIZE;
      } else {
        assert ByteOffset(m) - ByteOffset(n) == (m - n) * ROW_SIZE;
      }
    }
  }

  /**
   * The corrected fullness check of `execute_insert`: a table that is not
   * full has a next slot inside the page array, and only a table holding
   * `TABLE_MAX_ROWS` rows or more is full.
   */
  function IsFull(numRows: nat): (full: bool)
    ensures !full ==> PageOf(numRows) < TABLE_MAX_PAGES
    ensures full ==> numRows >= TABLE_MAX_ROWS
  {
    numRows >= TABLE_MAX_ROWS
  }

  /** The number of pages that rows `0 .. numRows - 1` touch. */
  function PagesInUse(numRows: nat): nat
  {
    (numRows + ROWS_PER_PAGE - 1) / ROWS_PER_PAGE
  }

  /** Page `p` is among the pages in use exactly when its first row is a stored row. */
  lemma PagesInUseMeaning(numRows: nat, p: nat)
    ensures p < PagesInUse(numRows) <==> p * ROWS_PER_PAGE < numRows
  {
    TableCapacity();
    var k := PagesInUse(numRows);
    assert k * 14 <= numRows + 13 < k * 14 + 14;
    if p < k {
      assert p * 14 <= (k - 1) * 14;
    } else {
      assert p * 14 >= k * 14;
    }
  }

  /** An empty table uses no page, one row uses one page, ROWS_PER_PAGE + 1 rows use two, a full table all of them. */
  lemma LazyAllocationCounts()
    ensures PagesInUse(0) == 0
    ensures PagesInUse(1) == 1
    ensures PagesInUse(ROWS_PER_PAGE) == 1
    ensures PagesInUse(ROWS_PER_PAGE + 1) == 2
    ensures PagesInUse(TABLE_MAX_ROWS) == TABLE_MAX_PAGES
  {
    TableCapacity();
  }

  /** The bytes of the slot of row `rowNum` in the page that holds it. */
  ghost function SlotBytes(page: array<bv8>, rowNum: nat): (slot: seq<bv8>)
    requires page.Length == PAGE_SIZE
    reads page
    ensures |slot| == ROW_SIZE
  {
    page[ByteOffset(rowNum)..ByteOffset(rowNum) + ROW_SIZE]
  }

  /**
   * Writing the slot of row `n` leaves the slot of every other row `i` on
   * the same page as it was: `before` and `after` are the page's bytes, equal
   * outside the slot of `n`.
   */
  lemma SlotUntouched(before: seq<bv8>, after: seq<bv8>, i: nat, n: nat)
    requires |before| == PAGE_SIZE && |after| == PAGE_SIZE
    requires i != n && PageOf(i) == PageOf(n)
    requires forall k :: 0 <= k < PAGE_SIZE && !(ByteOffset(n) <= k < ByteOffset(n) + ROW_SIZE) ==> after[k] == before[k]
    ensures after[ByteOffset(i)..ByteOffset(i) + ROW_SIZE] == before[ByteOffset(i)..ByteOffset(i) + ROW_SIZE]
  {
    SlotsDisjoint(i, n);
    var lo := ByteOffset(i);
    var written, kept := after[lo..lo + ROW_SIZE], before[lo..lo + ROW_SIZE];
    assert forall k :: 0 <= k < ROW_SIZE ==> written[k] == after[lo + k] == before[lo + k] == kept[k];
  }

  /**
   * Inserting row `slot` keeps "exactly the pages in use are allocated":
   * page `p` was allocated iff it was in use for `slot` rows; afterwards the
   * page of row `slot` is allocated and every other page is as before.
   */
  lemma AllocationStep(slot: nat, p: nat, wasAllocated: bool, isAllocated: bool)
    requires wasAllocated <==> p < PagesInUse(slot)
    requires p == PageOf(slot) ==> isAllocated
    requires p != PageOf(slot) ==> isAllocated == wasAllocated
    ensures isAllocated <==> p < PagesInUse(slot + 1)
  {
    PagesInUseMeaning(slot, p);
    PagesInUseMeaning(slot + 1, p);
    if p * ROWS_PER_PAGE == slot {
      PageOfUnique(slot, p);
    } else if p == PageOf(slot) {
      assert p * ROWS_PER_PAGE < slot;
    }
  }

  class Table {
    /** `num_rows`: the number of stored rows. */
    var numRows: nat
    /** `pages[TABLE_MAX_PAGES]`: a null entry is a page not yet allocated. */
    var pages: array<array?<bv8>>

    /** The stored rows, in row-number order. */
    ghost var Contents: seq<Row>
    /** The objects the table owns: itself, the page array and every allocated page. */
    ghost var Repr: set<object>

    /**
     * The table invariant: 100 page entries, each allocated page a distinct
     * 4096-byte buffer, at most TABLE_MAX_ROWS rows, and the slot of every
     * stored row allocated and holding that row's encoding.
     */
    ghost predicate Valid()
      reads this, Repr
      ensures Valid() ==> this in Repr
    {
      && this in Repr && pages in Repr
      && pages.Length == TABLE_MAX_PAGES
      && (forall p :: 0 <= p < TABLE_MAX_PAGES && pages[p] != null ==> pages[p] in Repr && pages[p].Length == PAGE_SIZE)
      && (forall p, q :: 0 <= p < q < TABLE_MAX_PAGES && pages[p] != null ==> pages[p] != pages[q])
      && numRows <= TABLE_MAX_ROWS
      && |Contents| == numRows
      && (forall i :: 0 <= i < numRows ==>
            && Contents[i].Valid()
            && pages[PageOf(i)] != null
            && SlotBytes(pages[PageOf(i)], i) == Serialize(Contents[i]))
    }

    /** Exactly the pages that the stored rows touch are allocated (what inserting alone produces). */
    ghost predicate AllocatedOnDemand()
      reads this, pages
      requires pages.Length == TABLE_MAX_PAGES
    {
      forall p :: 0 <= p < TABLE_MAX_PAGES ==> (pages[p] != null <==> p < PagesInUse(numRows))
    }

    /** `newTable`: no row, and all 100 page entries null. */
    constructor ()
      ensures Valid() && fresh(Repr)
      ensures numRows == 0 && Contents == []
      ensures pages.Length == TABLE_MAX_PAGES
      ensures forall p :: 0 <= p < TABLE_MAX_PAGES ==> pages[p] == null
      ensures AllocatedOnDemand()
    {
      var entries := new array?<bv8>[TABLE_MAX_PAGES];
      var i := 0;
      while i < TABLE_MAX_PAGES
        invariant 0 <= i <= TABLE_MAX_PAGES
        invariant forall p :: 0 <= p < i ==> entries[p] == null
      {
        entries[i] := null;
        i := i + 1;
      }
      numRows := 0;
      pages := entries;
      Contents := [];
      Repr := {this, entries};
      new;
      LazyAllocationCounts();
    }

    /**
     * `row_slot`: the page and byte offset of row `rowNum`. The page is
     * allocated (with unspecified contents) on first touch; no other page
     * entry, no page's bytes and no row count change, and a page that is
     * already allocated is returned as it is.
     */
    method RowSlot(rowNum: nat) returns (page: array<bv8>, byteOffset: nat)
      requires Valid()
      requires rowNum < TABLE_MAX_ROWS
      modifies this`Repr, pages
      ensures Valid() && fresh(Repr - old(Repr))
      ensures numRows == old(numRows) && Contents == old(Contents)
      ensures page == pages[PageOf(rowNum)] && page in Repr
      ensures byteOffset == ByteOffset(rowNum) && byteOffset + ROW_SIZE <= page.Length
      ensures old(pages[PageOf(rowNum)]) != null ==> page == old(pages[PageOf(rowNum)]) && Repr == old(Repr)
      ensures old(pages[PageOf(rowNum)]) == null ==> fresh(page) && page.Length == PAGE_SIZE && Repr == old(Repr) + {page}
      ensures forall p :: 0 <= p < TABLE_MAX_PAGES && p != PageOf(rowNum) ==> pages[p] == old(pages[p])
    {
      var pageNum := PageOf(rowNum);
      var existing := pages[pageNum];
      if existing == null {
        page := new bv8[PAGE_SIZE];
        pages[pageNum] := page;
        Repr := Repr + {page};
      } else {
        page := existing;
      }
      byteOffset := ByteOffset(rowNum);
    }

    /**
     * The write half of `execute_insert`: with the slot of row `numRows`
     * already located, encode `row` into it and count it. Only that slot's
     * bytes, the counter and the stored rows change.
     */
    method StoreNextRow(row: Row, page: array<bv8>, byteOffset: nat)
      requires Valid()
      requires row.Valid()
      requires numRows < TABLE_MAX_ROWS
      requires page == pages[PageOf(numRows)] && byteOffset == ByteOffset(numRows)
      modifies this`numRows, this`Contents, page
      ensures Valid()
      ensures numRows == old(numRows) + 1 && Contents == old(Contents) + [row]
    {
      var slot := numRows;
      ghost var before := page[..];
      label Written:
      SerializeRow(row, page, byteOffset);
      numRows := numRows + 1;
      Contents := Contents + [row];
      forall i | 0 <= i < slot
        ensures SlotBytes(pages[PageOf(i)], i) == Serialize(Contents[i])
      {
        var other := pages[PageOf(i)];
        if PageOf(i) == PageOf(slot) {
          SlotUntouched(before, page[..], i, slot);
        } else {
          assert other != page;
          assert SlotBytes(other, i) == old@Written(SlotBytes(other, i));
        }
      }
      assert SlotBytes(page, slot) == Serialize(row);
    }

    /**
     * `execute_insert` with the fullness check `numRows >= TABLE_MAX_ROWS`:
     * either the table is full and nothing changes, or the row is encoded into
     * slot `old(numRows)`, the count grows by one and the earlier rows stay as they were.
     */
    method ExecuteInsert(row: Row) returns (result: ExecuteResult)
      requires Valid()
      requires row.Valid()
      modifies Repr
      ensures Valid() && fresh(Repr - old(Repr))
      ensures pages == old(pages)
      ensures forall p :: 0 <= p < TABLE_MAX_PAGES && p != PageOf(old(numRows)) ==> pages[p] == old(pages[p])
      ensures result == ExecuteTableFull <==> old(numRows) == TABLE_MAX_ROWS
      ensures result == ExecuteTableFull ==> unchanged(old(Repr)) && Repr == old(Repr)
      ensures result == ExecuteSuccess ==> numRows == old(numRows) + 1 && Contents == old(Contents) + [row]
      ensures old(AllocatedOnDemand()) ==> AllocatedOnDemand()
    {
      if IsFull(numRows) {
        return ExecuteTableFull;
      }
      var slot := numRows;
      var page, byteOffset := RowSlot(slot);
      StoreNextRow(row, page, byteOffset);
      result := ExecuteSuccess;
      if old(AllocatedOnDemand()) {
        forall p | 0 <= p < TABLE_MAX_PAGES
          ensures pages[p] != null <==> p < PagesInUse(numRows)
        {
          AllocationStep(slot, p, old(pages[p]) != null, pages[p] != null);
        }
      }
    }

    /**
     * `execute_select`: the stored rows, decoded slot by slot in ascending
     * row order through the `row_slot` address of each row. The table is only read.
     */
    method ExecuteSelect() returns (rows: seq<Row>)
      requires Valid()
      ensures rows == Contents
    {
      rows := [];
      var i := 0;
      while i < numRows
        invariant 0 <= i <= numRows
        invariant rows == Contents[..i]
      {
        var page := pages[PageOf(i)];
        var row := DeserializeRow(page, ByteOffset(i));
        SerializeInjective(row, Contents[i]);
        rows := rows + [row];
        i := i + 1;
      }
    }
  }
}
