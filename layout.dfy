/**
 * The fixed row layout and the page geometry of the store: the Row record
 * and every size, offset and capacity constant derived from it.
 */
module Layout {

  /** One byte of a page or of a serialized row. */
  newtype byte = b: int | 0 <= b < 0x100

  /** The C `uint32_t`: the type of a row id and of the row counter. */
  newtype uint32 = x: int | 0 <= x < 0x1_0000_0000

  /** Width in bytes of each column, as `sizeof` of the Row struct's members. */
  const IdSize: nat := 4
  const UsernameSize: nat := 32
  const EmailSize: nat := 255

  /** Byte offset of each column inside a serialized row. */
  const IdOffset: nat := 0
  const UsernameOffset: nat := IdOffset + IdSize
  const EmailOffset: nat := UsernameOffset + UsernameSize

  /** Bytes taken by one serialized row. */
  const RowSize: nat := IdSize + UsernameSize + EmailSize

  /** Bytes in one page, pages in a table, and the capacities they imply. */
  const PageSize: nat := 4096
  const MaxTablePages: nat := 100
  const RowsPerPage: nat := PageSize / RowSize
  const MaxTableRows: nat := RowsPerPage * MaxTablePages

  /** The fixed-width text columns: the C arrays `char[32]` and `char[255]`. */
  type Username = s: seq<byte> | |s| == 32 witness seq(32, _ => 0)
  type Email = s: seq<byte> | |s| == 255 witness seq(255, _ => 0)

  /** One record of the table. */
  datatype Row = Row(id: uint32, username: Username, email: Email)

  /** The three columns sit back to back from offset 0 and fill the row exactly. */
  lemma FieldsContiguous()
    ensures IdOffset == 0
    ensures UsernameOffset == IdOffset + IdSize == 4
    ensures EmailOffset == UsernameOffset + UsernameSize == 36
    ensures EmailOffset + EmailSize == RowSize == 291
  {
  }

  /**
   * Fourteen rows fit in a page, a fifteenth would not, 22 bytes at the end
   * of each page stay unused, and the table holds 1400 rows.
   */
  lemma PageGeometry()
    ensures RowsPerPage == 14
    ensures RowsPerPage * RowSize <= PageSize < (RowsPerPage + 1) * RowSize
    ensures PageSize - RowsPerPage * RowSize == 22
    ensures MaxTableRows == RowsPerPage * MaxTablePages == 1400
  {
  }
}
