# ScanCursor: the table-scan cursor of the limbo MVCC store

This project models `ScanCursor` from `core/mvcc/cursor.rs` in Dafny and proves properties about it. The cursor is a small sequential state machine. At construction it asks the store once for the identities of a table's rows. After that it only moves an index over that fixed list. `current_row_id`, `forward` and `is_empty` are index arithmetic over the list. `current_row` passes the identity at the index to the store's `read(tx_id, id)` for the cursor's transaction. A row that the transaction cannot see comes back as `Ok(None)`. The cursor does not skip such rows.

Files:
- `wrappers.dfy`: `Option` and `Result`.
- `database.dfy`: what the cursor sees of the store. This is `RowID`, `Row`, the error type, and `MvStore`, which has two uninterpreted total functions: `scanRowIdsForTable` and `read`.
- `cursor.dfy`: the cursor and its six operations.
- `scan.dfy`: how callers drive a cursor. It covers repeated `forward` calls, the order in which rows are visited, the fact that exhaustion is permanent, and the usual scan loop.

The cursor is an immutable datatype. `Forward` returns the moved cursor together with its boolean answer. The accessors `CurrentRowId`, `CurrentRow` and `IsEmpty` take the cursor by value and return no cursor, so by construction they cannot change its state. The same holds for `Close`.

The cursor only borrows the store (`db: &'a MvStore`). Other transactions, and the cursor's own transaction, can write to the store while the cursor is open, and `current_row` reads the store as it is at each call. So the model's cursor keeps no copy of the store. `New` is given the store for the identity scan. `CurrentRow` is given the store as it is at the moment of that call. `ScanTable` takes a possibly different store for each step of its loop.

Two facts about the code worth stating:
- A new cursor is on the first identity (index 0). `forward` moves to the second.
- `current_row` does not skip rows with no visible version. It returns the store's `Ok(None)`, and the caller moves on.

## Model

| member | source | states |
|---|---|---|
| Cursor.New | core/mvcc/cursor.rs:14-22 | A failed identity scan is passed on with the same error. Otherwise the cursor holds exactly the scanned list, starts at index 0 and records the transaction id. |
| Cursor.CurrentRowId | core/mvcc/cursor.rs:24-29 | The result is `None` exactly when the index is at or past the end. Otherwise it is the identity at the index. |
| Cursor.CurrentRow | core/mvcc/cursor.rs:31-37 | When there is no current identity, the result is `Success(None)` whatever the store holds. Otherwise it is exactly the `read` of the store as it is at the call, for the cursor's transaction and the current identity. Invisible rows are not skipped. |
| Cursor.Close | core/mvcc/cursor.rs:39-41 | Closing always succeeds. |
| Cursor.Forward | core/mvcc/cursor.rs:43-46 | The index grows by exactly one. The identity list and the transaction id are unchanged. The answer is true exactly when the new position is not empty, which is when it has a current identity. |
| Cursor.IsEmpty | core/mvcc/cursor.rs:48-50 | True exactly when the index is not below the list length. This is exactly when `CurrentRowId` is `None`. |
| Scan.Advance | core/mvcc/cursor.rs:43-46 | After k `forward` calls the index has moved by exactly k. The list and the transaction are unchanged. |
| Scan.ForwardResults | core/mvcc/cursor.rs:43-46 | The answers of k successive `forward` calls are k answers, one per call. Call i answers true exactly when index + i + 1 is below the list length. |
| Scan.ExhaustionIsPermanent | core/mvcc/cursor.rs:43-50 | Once a cursor is empty, every further `forward` answers false, and the cursor stays empty after any number of calls. |
| Scan.FreshCursorScan | core/mvcc/cursor.rs:14-46 | Take a cursor fresh from `New` over n identities. With n = 0 it is empty at once. Otherwise `forward` answers true n-1 times and then false, and after n calls the cursor is empty. Before the k-th call the current identity is the k-th of the scanned list, and the current row is the `read` of it by whatever store exists at that moment. |
| Scan.Drain | core/mvcc/cursor.rs:24-50 | Read `current_row_id` and call `forward` until the cursor is empty. The identities collected are exactly the rest of the list from the index, in order. The result is empty when the index is past the end. |
| Scan.ScanTable | core/mvcc/cursor.rs:24-50 | The caller's scan loop visits each remaining identity once, in list order. The store may change between steps. For each identity the loop yields exactly the answer of the store as it is at that step, including `Success(None)` for invisible rows. It ends with an empty cursor over the same list and transaction. Its index is the list length, or the starting index if that was already past the end. |

## Left out

- The store's internals are not part of this model: version chains, the visibility rule, and the bodies of `read` and `scan_row_ids_for_table`, which are defined in `core/mvcc/database.rs`. `MvStore` carries the two operations as arbitrary total functions, so every property holds for any store behaviour.
- The layouts of `RowID`, `Row` and the error type also come from `core/mvcc/database.rs`, which is not part of this model. Here a `RowID` is a table id and row number, a `Row` is an identity with a string payload, and an error is a reason string. The cursor only copies these values and passes them on.
- `usize` overflow of `index` under unbounded `forward` calls is not modelled: the index is an unbounded natural number. In Rust, `self.index += 1` panics on overflow in debug builds. In release builds it wraps to 0, after which `forward` would answer true again, but only after 2^N calls, where N is the width of `usize` (2^64 on 64-bit targets).
- The `LogicalClock` type parameter and the lifetime `'a` have no observable effect on the cursor and are not modelled.
- `Close` only releases the memory of the identity list. The model has no memory to release, so only its `Ok(())` result is modelled.
