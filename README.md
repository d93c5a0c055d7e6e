# Paginated row store

A model of the storage layer of a tiny SQLite-like program. The layer has two parts.

- The **row codec** packs a row (a 32-bit id, a 32-byte username and a 255-byte email) into a 291-byte block at fixed offsets. It reads the row back from the same offsets.
- The **paged table** owns up to 100 pages of 4096 bytes each. A page is allocated the first time a row on it is touched. Row `n` lives on page `n / 14` at byte offset `(n % 14) * 291`. The table holds at most 1400 rows.

Files and modules:

- `layout.dfy` (`Layout`): the size, offset and capacity constants.
- `row_codec.dfy` (`RowCodec`): the `Row` datatype and the pure encoding `Serialize` / `Deserialize`. It also holds the methods `SerializeRow` and `DeserializeRow`, which copy byte by byte into and out of a page buffer, as `memcpy` does.
- `paged_table.dfy` (`PagedTable`): the address arithmetic `PageOf` / `ByteOffset` and the class `Table`.
  - The class has a `numRows` counter and a 100-entry array of nullable page buffers.
  - A ghost `Contents` holds the stored rows, and a ghost `Repr` holds the objects the table owns.
  - `Valid()` says that the slot of every stored row is allocated and holds that row's encoding.
- `source_defects.dfy` (`SourceDefects`): the four defects listed under "Findings", modelled as written.
- `scenarios.dfy` (`Scenarios`): clients that rely only on the table's contracts.

Modelling choices:

- The C program writes the id in native byte order. The model fixes one order: least significant byte first.
- `malloc` returns an uninitialised page. Dafny's `new` fills the page with zeros, but no contract depends on a fresh page's contents.
- The counter is a `nat`, and the invariant keeps it at most 1400. So the `uint32_t` counter never wraps in the modelled behaviour.
- Four places in the C code do not do what the code evidently intends. The model uses the corrected behaviour and records the code as written under "Findings":
  - the fullness check at src/main.c:94 uses `>`, and so lets through a row whose page index is 100, yet `pages` at src/main.c:76 has entries 0 to 99 only;
  - `deserialize_row` at src/main.c:63-65 copies from `&src`, the address of the parameter, not from the slot `src` points to;
  - `execute_select` at src/main.c:105 indexes `pages` by row number, while `row_slot` at src/main.c:80-91 places row `i` on page `i / 14` at offset `(i % 14) * 291`;
  - `newTable` at src/main.c:141-147 allocates the table with `malloc` (line 142) and nulls the page entries but never sets `num_rows`.

## Model

| member | source | states |
|---|---|---|
| Layout.LayoutIsContiguous | src/main.c:47-53 | the id, username and email fields are back to back from offset 0, each field ends where the next begins, and the email ends exactly at ROW_SIZE = 291 |
| Layout.TableCapacity | src/main.c:69-72 | 14 whole rows fit in a 4096-byte page and a 15th does not; the table holds 1400 rows |
| RowCodec.EncodeId | src/main.c:57 | an id occupies exactly ID_SIZE = 4 bytes |
| RowCodec.DecodeId | src/main.c:63 | every 4-byte block is the encoding of the id it decodes to |
| RowCodec.IdRoundTrip | src/main.c:57-63 | decoding the bytes of an id gives the id back |
| RowCodec.Serialize | src/main.c:56-60 | a row encodes to exactly ROW_SIZE bytes: the id bytes at ID_OFFSET, the username at USERNAME_OFFSET, the email at EMAIL_OFFSET |
| RowCodec.Deserialize | src/main.c:62-66 | reading a 291-byte block at the same offsets gives a well-formed row whose encoding is that block |
| RowCodec.RoundTrip | src/main.c:56-66 | deserializing a serialized row returns the original row, field for field |
| RowCodec.SerializeInjective | src/main.c:56-60 | two rows with the same encoding are equal |
| RowCodec.CopyInto | src/main.c:57-59 | copying n bytes to offset `at` writes them to `[at, at + n)` and leaves every other byte of the buffer unchanged |
| RowCodec.CopyOut | src/main.c:63-65 | copying n bytes from offset `at` returns exactly the bytes `[at, at + n)` |
| RowCodec.SerializeRow | src/main.c:56-60 | after the call the slot `[at, at + ROW_SIZE)` holds `Serialize(row)` and no other byte of the page changes |
| RowCodec.DeserializeRow | src/main.c:62-66 | reading at `src + at` (the corrected address) returns the well-formed row whose encoding is the slot `[at, at + ROW_SIZE)`; the buffer is not modified |
| PagedTable.PageOf | src/main.c:81 | row n lies in the row range `[page * 14, page * 14 + 14)` of its page; rows below TABLE_MAX_ROWS map to a page below TABLE_MAX_PAGES |
| PagedTable.ByteOffset | src/main.c:87-88 | the offset is the row's position on its page times ROW_SIZE, and offset + ROW_SIZE <= PAGE_SIZE |
| PagedTable.PageOfUnique | src/main.c:81 | a row number lies in the row range of exactly one page |
| PagedTable.SlotsDisjoint | src/main.c:80-90 | distinct row numbers map to different pages, or to non-overlapping byte ranges of the same page |
| PagedTable.SlotUntouched | src/main.c:56-60 | writing the slot of row n changes no byte of the slot of any other row on the same page |
| PagedTable.AllocationStep | src/main.c:82-86 | after storing row n, where only n's page may have been newly allocated, page p is allocated exactly when it is in use for n + 1 rows |
| PagedTable.IsFull | src/main.c:94-96 | corrected check: a table that is not full has its next slot on a page inside the array, and only a table with TABLE_MAX_ROWS rows or more is full |
| PagedTable.PagesInUseMeaning | src/main.c:82-86 | page p is among the pages in use exactly when its first row number is below numRows |
| PagedTable.LazyAllocationCounts | src/main.c:82-86 | 0 rows use no page, 1 row and 14 rows use one page, 15 rows use two, and 1400 rows use all 100 |
| PagedTable.Table.constructor | src/main.c:141-147 | a new table has a valid `Repr`, numRows = 0 (the corrected initialisation), no rows, all 100 page entries null, and only the pages in use allocated |
| PagedTable.Table.RowSlot | src/main.c:80-91 | returns `pages[n / 14]` and offset `(n % 14) * 291`, and the row fits inside the page. A null entry is replaced by a fresh 4096-byte page; an allocated entry is returned as is and nothing is allocated, so a second call allocates nothing. No other page entry, no page byte, no row count and no stored row changes. |
| PagedTable.Table.StoreNextRow | src/main.c:98 | encoding the row into the located slot of row numRows and counting it keeps the table valid, grows numRows by 1 and appends the row to the stored rows; only that page, the counter and the stored rows are modified |
| PagedTable.Table.ExecuteInsert | src/main.c:93-100 | reports full exactly when numRows = TABLE_MAX_ROWS, and then the table is unchanged. No page entry other than that of row old(numRows) changes. Otherwise the row is stored at slot old(numRows), numRows grows by exactly 1 and the earlier rows stay as they were. Validity (with numRows <= TABLE_MAX_ROWS) and on-demand allocation are preserved. |
| PagedTable.Table.ExecuteSelect | src/main.c:102-108 | decodes rows 0 .. numRows - 1 in ascending order through each row's page and offset, returns exactly the stored rows, and modifies nothing |
| SourceDefects.FullCheckAsWrittenOverflows | src/main.c:94 | the `>` check lets a table holding 1400 rows accept another row, whose page index 100 is past the end of `pages[100]`; the corrected check rejects that row |
| SourceDefects.DeserializeAsWrittenIgnoresSlot | src/main.c:62-66 | reading at `&src + OFFSET` never looks at the slot: two slots with any contents decode to the same row when the memory at `&src` is the same |
| SourceDefects.DeserializeAsWrittenMisreads | src/main.c:62-66 | the memory at `&src` starts with the non-null slot address itself, so the id read back is the low 32 bits of that address; a stored row whose id differs from those bits does not come back |
| SourceDefects.SelectAsWrittenReadsNullPage | src/main.c:104-105 | in an insert-built table holding 2 to 14 rows, the as-written scan reads its second row from page entry 1, which is null, while that row sits on page 0 at offset 291 |
| SourceDefects.UninitialisedCounterBreaksTable | src/main.c:141-147 | a table whose page entries are all null is valid only when its counter is 0, so any leftover counter value claims rows that no page holds |
| Scenarios.InsertAllThenSelect | src/main.c:93-108 | inserting up to 1400 well-formed rows into a new table and then scanning it yields exactly those rows, in insertion order |
| Scenarios.FillToCapacity | src/main.c:93-100 | 1400 insertions into a new table succeed and allocate every page; the next insertion reports the table full and leaves numRows at 1400 |

## Left out

- The command loop: `main`, `printPrompt`, `read_input` and the `InputBuffer` helpers. These are terminal I/O.
- `do_meta_command`: it compares the line with `.exit` and ends the process.
- `prepare_statement`: it parses with `sscanf`, and library behaviour is not modelled. Rows are therefore always well formed: no username longer than 32 bytes and no email longer than 255 bytes reaches the codec.
- `execute_statement` and the `printf` of each row in `execute_select`: these only produce output. `ExecuteSelect` returns the rows instead of printing them.
- `freeTable`: releasing memory has no meaning in the model. The table owns every allocated page through `Repr`.
- `malloc` failure, struct padding and the native byte order of the id. The model fixes little-endian order.
- Row indices at or above TABLE_MAX_ROWS passed to `row_slot`: the C code indexes past `pages[100]` there. `RowSlot` requires an index below TABLE_MAX_ROWS, and the corrected fullness check means `ExecuteInsert` never passes a larger one.

## Findings

| source | as written | input that shows it | evidently intended | confidence | as-written member | corrected member |
|---|---|---|---|---|---|---|
| src/main.c:94 | `if (table->num_rows > TABLE_MAX_ROWS)` treats a table holding 1400 rows as not full | insert into a table with `num_rows` = 1400: `row_slot` computes page 100 and reads `pages[100]`, one past the end | `num_rows >= TABLE_MAX_ROWS` | high (not executed) | SourceDefects.FullCheckAsWrittenOverflows | PagedTable.IsFull |
| src/main.c:63-65 | `memcpy(..., &src + OFFSET, ...)` copies from the memory holding the pointer `src`, in steps of pointer width | serialize a row with id 1 into a slot whose address has low 32 bits other than 1, then deserialize that slot: the id comes back as the low 32 bits of the slot's address, not 1 | copy from `src + OFFSET` | high (not executed) | SourceDefects.DeserializeAsWrittenMisreads | RowCodec.DeserializeRow |
| src/main.c:105 | `deserialize_row(table->pages[i], &row)` uses the row number as a page index, at offset 0 | insert two rows, then select: row 1 is read from `pages[1]`, which is null; row 1 is on page 0 at offset 291 | `deserialize_row(row_slot(table, i), &row)` | high (not executed) | SourceDefects.SelectAsWrittenReadsNullPage | PagedTable.Table.ExecuteSelect |
| src/main.c:141-147 | `newTable` never sets `num_rows`, so it keeps whatever `malloc` returned | a new table whose counter happens to be 1: select reads row 0 from its page, which is null | `table->num_rows = 0` | medium (not executed; depends on what `malloc` returns) | SourceDefects.UninitialisedCounterBreaksTable | PagedTable.Table.constructor |
