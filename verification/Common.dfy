/** Values shared by every layer of the engine: bytes, record identifiers and column types. */
module Common {
  newtype byte = x: int | 0 <= x < 256

  type Bytes = seq<byte>

  /** Identifies a record by page and slot; an index also uses it, with slot -1, to point at a child page. */
  datatype RecordID = RecordID(page: int, slot: int)

  datatype ColumnType = INT | FLOAT | STRING | DATETIME

  /** No page: the end of a chain of pages. */
  const NO_PAGE := -1

  datatype Option<+T> = None | Some(value: T)
}
