# Bocchi paged row store, modelled in Dafny

Bocchi is a tiny in-memory database with one fixed table. Each row of that
table has three columns:

- `id`, a `uint32_t`;
- `username`, a `char[32]`;
- `email`, a `char[255]`.

A row is serialized into 291 bytes: the id at offset 0, the username at 4 and
the email at 36. Rows are stored back to back in 4096-byte pages, 14 to a
page, and the table has 100 page slots, so it holds at most 1400 rows. A page
is allocated the first time a row in it is addressed.

The REPL first checks whether a line starts with `.`. Such a meta-command
line goes to the shell-command handler and is never prepared: `.exit` and
`.close` end the process, and any other one is reported as an illegal
command. Every other line is prepared. A line starting with `insert` becomes a
`Statement` carrying a row, or a syntax error when fewer than three fields
were scanned. A line starting with `select` becomes a select statement.
Anything else is unrecognized. A prepared statement is then executed:

- an insert appends the row, or reports that the table is full;
- a select reads every stored row back in order.

The model has five modules:

- `Layout`: the constants of `db.h`, the `Row` record with fixed-width
  columns, and `byte`/`uint32` as bounded newtypes.
- `Codec`: `convert_to_binary` and `convert_from_binary`. Each is modelled
  twice. A pure pair `EncodeRow`/`DecodeRow` is proved to be mutually
  inverse. Methods `ConvertToBinary`/`ConvertFromBinary` do the column-wise
  copies into and out of a page `array<byte>`, and are proved against that
  pair.
- `Pager`: the `Table` class.
  - Its fields are the page-slot array `pages` and the counter `numRows`.
  - Ghost fields: `Contents`, the rows stored, in order; `Repr`, the objects
    the table owns; and `SlotOf`, which records the slot each page sits in.
  - The invariant `Valid` says three things. Exactly the pages some stored
    row maps into are allocated. Each allocated page holds, in each row's
    slot, the encoding of that row. `numRows` equals `|Contents|` and is at
    most 1400.
  - Methods: `row_address`, `execute_insert`, `execute_select`, `newTable`
    and `freeTable`.
- `Statements`: `prepare_statement` and `execute_recognized_statement`.
  - It also gives a reference semantics on row sequences alone: `Step` for
    one statement and `Run` for a session on a fresh table.
  - `RunSession` drives a real `Table` through a session and is proved to
    produce exactly the statuses and outputs of `Run`.
- `Wrappers`: `Option`, for empty and filled page slots.

## Model

| member | source | states |
|---|---|---|
| Layout.FieldsContiguous | db.h:37-55 | The id, username and email columns start at offsets 0, 4 and 36 and fill a 291-byte row exactly, with no gaps. |
| Layout.PageGeometry | db.h:63-66 | 14 rows fit in a 4096-byte page and a 15th would not. 22 bytes per page stay unused, and the table holds 1400 rows. |
| Codec.EncodeId | insert.c:4 | The id is written as 4 bytes, least significant first: read as base-256 digits in that order, they add up to the id. |
| Codec.DecodeId | select.c:4 | Every 4 bytes are the encoding of the id read from them, so no byte pattern is lost on the way. |
| Codec.IdRoundTrip | db.h:20 | Every `uint32_t` id fits the 4-byte id column: it reads back unchanged from the bytes written for it. |
| Codec.EncodeRow | insert.c:3-7 | The serialized row is 291 bytes. Bytes [0,4) are the id, [4,36) the username and [36,291) the email. |
| Codec.DecodeRow | select.c:3-7 | Every 291-byte slot reads as the row whose encoding is exactly that slot. |
| Codec.DecodeEncode | select.c:3-7 | Reading back a serialized row gives the same id, username and email. |
| Codec.MemCopy | insert.c:4-6 | A copy of `src` to `dest + at` overwrites exactly the bytes [at, at+len) with `src` and no others. |
| Codec.ConvertToBinary | insert.c:3-7 | The three column copies overwrite exactly the 291 bytes at the destination with the row's encoding. Every other byte of the page is unchanged. |
| Codec.ConvertFromBinary | select.c:3-7 | The row read from a slot is the one whose encoding equals the slot's 291 bytes. |
| Pager.PageOf | insert.c:10 | Every row number below the capacity maps to a page index below 100. |
| Pager.OffsetOf | insert.c:18 | A row's offset is a multiple of 291, and the whole row fits inside the page. |
| Pager.RowNumberAt | insert.c:10-18 | An offset inside one of a page's 14 slots names a row whose address is that page and the start of that slot. |
| Pager.RowAddressInverse | insert.c:10-18 | The page and offset determine the row number, so two rows never share an address. |
| Pager.SlotsDisjoint | insert.c:9-20 | Two distinct rows lie in different pages or in non-overlapping byte ranges of one page. |
| Pager.UnusedPageHolds | insert.c:13-16 | A freshly allocated page (one no stored row maps into) satisfies the storage invariant whatever its bytes. |
| Pager.AppendHolds | insert.c:28 | Writing the next row into its slot keeps every earlier row of that page intact, and stores the new row in its slot. |
| Pager.AppendElsewhereHolds | insert.c:28 | Appending a row that maps to another page leaves the invariant of this page intact. |
| Pager.AllocatedForNext | insert.c:11-16 | Filling row n's page slot, if empty, keeps "allocated exactly when some stored row maps there" true for n+1 rows. |
| Pager.Table.constructor | main.c:40-47 | A new table has no rows, all 100 page slots empty, and satisfies the table invariant. |
| Pager.Table.RowAddress | insert.c:9-20 | The result is row n's page and offset. An empty slot gets a fresh 4096-byte page; an occupied slot returns its page and changes nothing. No other slot changes. |
| Pager.Table.ExecuteInsert | insert.c:22-32 | A full table (1400 rows) gives TableFull and changes nothing. Otherwise the result is Success, `numRows` grows by one and the stored rows become the old rows plus the new one. The invariant is preserved. |
| Pager.Table.AppendRow | insert.c:27-29 | Serializing the row into slot `numRows` and counting it appends it to the stored rows. Every earlier row keeps its bytes, and the invariant is preserved. |
| Pager.Table.ReserveSlot | insert.c:28 | Addressing slot `numRows` leaves the rows and the count as they were. Afterwards its page is allocated and still holds the stored rows, and exactly the pages used by `numRows + 1` rows are allocated. |
| Pager.Table.WriteReserved | insert.c:28-29 | Writing the row into the addressed slot and counting it restores the table invariant with the row appended. |
| Pager.Table.ExecuteSelect | select.c:9-16 | Returns Success and exactly the stored rows, in insertion order. It allocates nothing and changes nothing. |
| Pager.Table.Free | main.c:49-54 | Afterwards every page slot is empty and the table owns no page. |
| Statements.CString | select.c:13 | The text of a column is its longest prefix without a zero byte, ending at the first zero byte. For a terminated column, as every prepared column is, this is what `%s` prints. |
| Statements.FixedField | main.c:99-102 | A scanned word fills a column of exactly 32 or 255 bytes: its first min(len, 31) or min(len, 254) bytes, then a terminator. The last byte of the column is zero only because of the zero fill (see Left out). |
| Statements.FixedFieldReadsBack | main.c:97-103 | A word without zero bytes reads back from its column as the word cut to 31 or 254 bytes. |
| Statements.PrepareStatement | main.c:94-116 | An `insert` prefix gives a syntax error when fewer than three fields were scanned. Otherwise it gives an Insert with the scanned id, and each column holds the scanned word cut to 31 or 254 bytes followed by a terminator. A `select` prefix (and no `insert` prefix) gives Select. Anything else is unrecognized. Each case holds in both directions. |
| Statements.PreparedInsertReadsBack | main.c:97-107 | The row a well-formed insert line prepares has the scanned id, and its columns read back as the scanned words cut to 31 and 254 bytes. |
| Statements.Step | main.c:122-130 | One statement only appends (at most one row), keeps the 1400-row bound and never reports Failure. |
| Statements.ExecuteRecognizedStatement | main.c:122-130 | Inserts go to `execute_insert` and selects to `execute_select`. The table's rows, the status and the output are exactly those of `Step`, and the invariant is preserved. |
| Statements.Run | main.c:132-174 | A session gives one status and one output per statement and never stores more than 1400 rows, or more rows than statements. |
| Statements.RunAppendOnly | insert.c:22-32 | Rows stored after any prefix of a session remain stored, at the same positions, at its end. |
| Statements.RunInserts | insert.c:23-31 | Inserting rows into a new table stores the first 1400 in order. Those inserts succeed and every later one reports TableFull. |
| Statements.InsertsThenSelect | select.c:10-12 | A select after inserts into a new table outputs exactly the rows that fit, in insertion order, and succeeds, including on an empty table. |
| Statements.RunSession | main.c:132-174 | Driving a new `Table` through a statement sequence gives exactly the statuses and outputs of the reference semantics `Run`. |

## Left out

- The REPL itself is not modelled, because it is console I/O: `getline` and its Windows replacement, the prompt, `read_input`, `do_shell_command` (`.exit`/`.close`) and the `printf` messages. A session is a sequence of already-prepared statements, and its statuses and outputs stand for what is printed.
- `db.c` is not part of this model.
- Statements.PrepareStatement: the input line is the buffer's bytes, and the keywords are compared as their ASCII bytes. `sscanf` with `"insert %d %31s %254s"` is abstracted as a parameter. It carries either the three converted fields or "fewer than three". The model does not capture tokenization: how a word longer than 31 bytes spills into the email conversion, and how `%d` converts text (including negative numbers) into the `uint32_t` id. The 31/254-byte limits themselves are modelled.
- Statements.FixedField: the bytes after a column's terminator are left indeterminate by the code, which scans into an uninitialised stack `Statement`. The model fills them with zeros, so its "last byte is zero" clause holds of the model only, not of the program.
- Statements.CString: for a column without a zero byte, the model reads the whole column, while C's `%s` would read on into the next column or past the row. No prepared column lacks a terminator.
- On a syntax error, the code has already partly written the `Statement`. The model does not capture that partly written state, since nothing reads it.
- `malloc` failure is not modelled. A fresh page's bytes are arbitrary in the model, as with `malloc`, and no proof depends on them.
- The id is written least significant byte first. The code copies it in the machine's native byte order.
- Pager.Table.Free: releasing a page is modelled as emptying its slot. The final `free(table)` of the table structure itself is not modelled, because Dafny has no deallocation.
- Pager.Table.ExecuteSelect returns the rows rather than printing them. The `printf("%d", ...)` of a `uint32_t` id is not modelled.
- The `EXECUTE_FAILURE` fallthrough of `execute_recognized_statement` is unreachable with two statement kinds. The model keeps the `Failure` status and proves it is never produced.
- Field-length validation that rejects over-long usernames and emails with a validation error is not modelled. The code truncates through bounded scan widths and has no such status, and the model follows the code.
