/**
 * The fixed byte layout of a stored row and the capacity constants of the
 * page array. In the C program these are file-scope `const uint32_t`s derived
 * from `sizeof` of the `Row` fields; here they are compile-time constants.
 */
module Layout {

  /** Capacities of the two text columns of a row. */
  const COLUMN_USERNAME_SIZE: nat := 32
  const COLUMN_EMAIL_SIZE: nat := 255

  /** Widths of the three fields: the id is a 32-bit unsigned integer. */
  const ID_SIZE: nat := 4
  const USERNAME_SIZE: nat := COLUMN_USERNAME_SIZE
  const EMAIL_SIZE: nat := COLUMN_EMAIL_SIZE

  /** Offsets of the fields inside a serialized row. */
  const ID_OFFSET: nat := 0
  const USERNAME_OFFSET: nat := ID_OFFSET + ID_SIZE
  const EMAIL_OFFSET: nat := USERNAME_OFFSET + USERNAME_SIZE
  const ROW_SIZE: nat := ID_SIZE + USERNAME_SIZE + EMAIL_SIZE

  /** Page geometry of the table. */
  const PAGE_SIZE: nat := 4096
  const TABLE_MAX_PAGES: nat := 100
  const ROWS_PER_PAGE: nat := PAGE_SIZE / ROW_SIZE
  const TABLE_MAX_ROWS: nat := ROWS_PER_PAGE * TABLE_MAX_PAGES

  /** The three fields are packed back to back, with no padding, and fill the row exactly. */
  lemma LayoutIsContiguous()
    ensures ID_OFFSET == 0
    ensures USERNAME_OFFSET == ID_OFFSET + ID_SIZE
    ensures EMAIL_OFFSET == USERNAME_OFFSET + USERNAME_SIZE
    ensures EMAIL_OFFSET + EMAIL_SIZE == ROW_SIZE
    ensures ROW_SIZE == 291
  {
  }

  /** A page holds 14 whole rows, and the table holds 100 pages, hence 1400 rows. */
  lemma TableCapacity()
    ensures ROWS_PER_PAGE == 14 && TABLE_MAX_ROWS == 1400
    ensures ROWS_PER_PAGE * ROW_SIZE <= PAGE_SIZE < (ROWS_PER_PAGE + 1) * ROW_SIZE
  {
  }
}
