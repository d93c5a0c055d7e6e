/**
 * Four places where the C program does not do what it evidently intends. Each
 * is written here as the code stands, with a lemma that exhibits the
 * discrepancy; the rest of the model uses the corrected behaviour
 * (`PagedTable.IsFull`, `RowCodec.DeserializeRow`,
 * `PagedTable.Table.ExecuteSelect`, `PagedTable.Table` constructor).
 */
module SourceDefects {
  import opened Layout
  import opened RowCodec
  import opened PagedTable

  /** The fullness test of `execute_insert` as written: `num_rows > TABLE_MAX_ROWS`. */
  function IsFullAsWritten(numRows: nat): bool
  {
    numRows > TABLE_MAX_ROWS
  }

  /**
   * With `>`, a table already holding TABLE_MAX_ROWS rows is not full, and the
   * slot it then asks for lies on page 100, one past the end of `pages[100]`.
   * The corrected test rejects that insertion.
   */
  lemma FullCheckAsWrittenOverflows()
    ensures !IsFullAsWritten(TABLE_MAX_ROWS)
    ensures PageOf(TABLE_MAX_ROWS) == TABLE_MAX_PAGES
    ensures IsFull(TABLE_MAX_ROWS)
  {
    TableCapacity();
    PageOfUnique(TABLE_MAX_ROWS, TABLE_MAX_PAGES);
  }

  /** `sizeof(void*)` on a 64-bit target: the unit of arithmetic on `&src`, a `void**`. */
  const POINTER_SIZE: nat := 8

  /** How many bytes, from the address of the parameter `src` on, the as-written copies reach. */
  const FRAME_SPAN: nat := EMAIL_OFFSET * POINTER_SIZE + EMAIL_SIZE

  /**
   * `deserialize_row` as written: it copies from `&src + OFFSET`, that is from
   * the memory holding the pointer `src` itself, stepping in units of
   * POINTER_SIZE. `frame` stands for that memory; the slot `slot` that `src`
   * points to is never read.
   */
  function DeserializeAsWritten(slot: seq<bv8>, frame: seq<bv8>): Row
    requires |frame| >= FRAME_SPAN
  {
    Row(DecodeId(frame[ID_OFFSET * POINTER_SIZE..ID_OFFSET * POINTER_SIZE + ID_SIZE]),
        frame[USERNAME_OFFSET * POINTER_SIZE..USERNAME_OFFSET * POINTER_SIZE + USERNAME_SIZE],
        frame[EMAIL_OFFSET * POINTER_SIZE..EMAIL_OFFSET * POINTER_SIZE + EMAIL_SIZE])
  }

  /** The eight bytes of a 64-bit address, least significant first (the order the id is modelled in). */
  function PointerBytes(address: bv64): (bytes: seq<bv8>)
    ensures |bytes| == POINTER_SIZE
    ensures bytes[..ID_SIZE] == EncodeId((address & 0xFFFF_FFFF) as bv32)
  {
    EncodeId((address & 0xFFFF_FFFF) as bv32) + EncodeId((address >> 32) as bv32)
  }

  /** The as-written read never looks at the slot: any two slots decode alike given the same memory at `&src`. */
  lemma DeserializeAsWrittenIgnoresSlot(slot1: seq<bv8>, slot2: seq<bv8>, frame: seq<bv8>)
    requires |frame| >= FRAME_SPAN
    ensures DeserializeAsWritten(slot1, frame) == DeserializeAsWritten(slot2, frame)
  {
  }

  /**
   * The memory at `&src` starts with the pointer `src` itself. So the id read
   * back is the low 32 bits of the slot's address, and a row whose id is not
   * those bits does not survive `serialize_row` followed by `deserialize_row`.
   */
  lemma DeserializeAsWrittenMisreads(row: Row, address: bv64, frame: seq<bv8>)
    requires row.Valid()
    requires address != 0
    requires |frame| >= FRAME_SPAN && frame[..POINTER_SIZE] == PointerBytes(address)
    requires row.id != (address & 0xFFFF_FFFF) as bv32
    ensures DeserializeAsWritten(Serialize(row), frame).id == (address & 0xFFFF_FFFF) as bv32
    ensures DeserializeAsWritten(Serialize(row), frame) != row
  {
    var low := (address & 0xFFFF_FFFF) as bv32;
    assert frame[ID_OFFSET * POINTER_SIZE..ID_OFFSET * POINTER_SIZE + ID_SIZE] == PointerBytes(address)[..ID_SIZE];
    IdRoundTrip(low);
  }

  /** The page entry and byte offset `execute_select` as written reads row `i` from: `pages[i]`, offset 0. */
  function SelectSlotAsWritten(i: nat): (nat, nat)
  {
    (i, 0)
  }

  /**
   * In a table built by inserting alone, with two to ROWS_PER_PAGE rows, the
   * as-written scan reads its second row from page entry 1, which is still
   * null; the row actually sits on page 0 at offset ROW_SIZE.
   */
  lemma SelectAsWrittenReadsNullPage(t: PagedTable.Table)
    requires t.Valid() && t.AllocatedOnDemand()
    requires 2 <= t.numRows <= ROWS_PER_PAGE
    ensures t.pages[SelectSlotAsWritten(1).0] == null
    ensures PageOf(1) == 0 && ByteOffset(1) == ROW_SIZE
  {
    TableCapacity();
    PagesInUseMeaning(t.numRows, 1);
    PageOfUnique(1, 0);
  }

  /**
   * `newTable` as written nulls every page entry but never sets `num_rows`.
   * A table whose page entries are all null is consistent only when its
   * counter is 0: any other leftover value claims rows no page holds.
   */
  lemma UninitialisedCounterBreaksTable(t: PagedTable.Table)
    requires t.pages.Length == TABLE_MAX_PAGES
    requires forall p :: 0 <= p < TABLE_MAX_PAGES ==> t.pages[p] == null
    ensures t.Valid() ==> t.numRows == 0
  {
    if t.numRows > 0 {
      assert PageOf(0) == 0 && t.pages[0] == null;
      assert !t.Valid();
    }
  }
}
