/** The parts of the MVCC store that the scan cursor depends on.
    The store's own data structures (version chains, the visibility rule)
    are not part of this model: the two store operations the cursor calls
    are carried as uninterpreted total functions. */
module Database {
  import opened Wrappers

  /** Rust's `u64`, used for transaction and table identities. */
  type u64 = x: int | 0 <= x < 0x1_0000_0000_0000_0000

  /** Identity of a logical row: the table it belongs to and its row number.
      The cursor only copies identities and passes them on. */
  datatype RowID = RowID(tableId: u64, rowId: u64)

  /** A row's payload together with the identity it belongs to. */
  datatype Row = Row(id: RowID, data: string)

  /** Errors the store reports; the cursor only propagates them. */
  datatype DatabaseError = DatabaseError(reason: string)

  /** The store's `Result<T>` alias. */
  type DbResult<T> = Result<T, DatabaseError>

  /** The store as the cursor sees it:
      - `scanRowIdsForTable(tableId)` lists the identities of a table's rows,
        or fails;
      - `read(txId, id)` resolves the version of `id` visible to transaction
        `txId`: `Success(None)` when no version is visible to it. */
  datatype MvStore = MvStore(
    scanRowIdsForTable: u64 -> DbResult<seq<RowID>>,
    read: (u64, RowID) -> DbResult<Option<Row>>)
}
