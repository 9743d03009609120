/** The table-scan cursor of the MVCC store.

    A cursor takes the list of row identities of one table once, when it is
    built, and then only moves an index over that fixed list. Each row's
    value is resolved lazily, through the store's `read`, against the
    transaction the cursor was opened for. Rows that the transaction cannot
    see come back as `Success(None)`: the cursor never skips them itself.

    Every operation takes the cursor by value. The accessors return no new
    cursor, so they cannot change its state; `Forward` returns the moved
    cursor together with its boolean answer.

    The cursor only borrows the store, which other writers (and the cursor's
    own transaction) may change while the cursor is open. So the cursor does
    not keep a copy of the store: `CurrentRow` is given the store as it is at
    the moment of the call. */
module Cursor {
  import opened Wrappers
  import opened Database

  datatype ScanCursor = ScanCursor(
    rowIds: seq<RowID>,
    index: nat,
    txId: u64)
  {
    /** The index still points at one of the identities. */
    predicate InRange() {
      index < |rowIds|
    }
  }

  /** What a call of `forward` leaves behind: the moved cursor and whether
      a position remains. */
  datatype Step = Step(cursor: ScanCursor, more: bool)

  /** Opens a cursor for transaction `txId` over table `tableId`. A failed
      identity scan is passed on unchanged; otherwise the cursor holds exactly
      the scanned list, starts at its first element and remembers `txId`. */
  function New(db: MvStore, txId: u64, tableId: u64): (r: DbResult<ScanCursor>)
    ensures r.Failure? <==> db.scanRowIdsForTable(tableId).Failure?
    ensures r.Failure? ==> r.error == db.scanRowIdsForTable(tableId).error
    ensures r.Success? ==>
      && r.value.rowIds == db.scanRowIdsForTable(tableId).value
      && r.value.index == 0
      && r.value.txId == txId
  {
    match db.scanRowIdsForTable(tableId)
    case Failure(e) => Failure(e)
    case Success(ids) => Success(ScanCursor(ids, 0, txId))
  }

  /** The identity at the current position, or `None` once the position has
      run past the end of the list. */
  function CurrentRowId(c: ScanCursor): (r: Option<RowID>)
    ensures r.None? <==> c.index >= |c.rowIds|
    ensures r.Some? ==> c.index < |c.rowIds| && r.value == c.rowIds[c.index]
  {
    if c.index >= |c.rowIds| then None else Some(c.rowIds[c.index])
  }

  /** The row at the current position as the cursor's transaction sees it in
      `db`, the store as it is at this call. Past the end it is
      `Success(None)` whatever the store holds; otherwise it is exactly the
      store's answer for the current identity, including `Success(None)` for
      a row the transaction cannot see. */
  function CurrentRow(c: ScanCursor, db: MvStore): (r: DbResult<Option<Row>>)
    ensures CurrentRowId(c).None? ==> r == Success(None)
    ensures CurrentRowId(c).Some? ==> r == db.read(c.txId, CurrentRowId(c).value)
  {
    if c.index >= |c.rowIds| then Success(None)
    else
      var id := c.rowIds[c.index];
      db.read(c.txId, id)
  }

  /** Releasing a cursor never fails. */
  function Close(c: ScanCursor): (r: DbResult<()>)
    ensures r.Success?
  {
    Success(())
  }

  /** Moves one position on. Only the index changes, and the answer says
      whether the new position still names an identity. */
  function Forward(c: ScanCursor): (r: Step)
    ensures r.cursor.rowIds == c.rowIds
    ensures r.cursor.txId == c.txId
    ensures r.cursor.index == c.index + 1
    ensures r.more <==> !IsEmpty(r.cursor)
    ensures r.more <==> CurrentRowId(r.cursor).Some?
  {
    var moved := c.(index := c.index + 1);
    Step(moved, moved.index < |moved.rowIds|)
  }

  /** No position remains: exactly when there is no current identity. */
  function IsEmpty(c: ScanCursor): (r: bool)
    ensures r <==> !c.InRange()
    ensures r <==> CurrentRowId(c).None?
  {
    c.index >= |c.rowIds|
  }
}
