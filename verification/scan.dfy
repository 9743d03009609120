/** How a caller drives a cursor: repeated `forward` calls, and the loop
    that reads the current identity and row until the cursor is empty.
    These state the cursor's iteration order and that exhaustion is final. */
module Scan {
  import opened Wrappers
  import opened Database
  import opened Cursor

  /** The cursor left after `k` successive `forward` calls. */
  function Advance(c: ScanCursor, k: nat): (r: ScanCursor)
    ensures r.rowIds == c.rowIds && r.txId == c.txId
    ensures r.index == c.index + k
    decreases k
  {
    if k == 0 then c else Advance(Forward(c).cursor, k - 1)
  }

  /** The answers of `k` successive `forward` calls, in call order. The i-th
      answer is true exactly when the index that call moves to still names
      an identity. */
  function ForwardResults(c: ScanCursor, k: nat): (bs: seq<bool>)
    ensures |bs| == k
    ensures forall i :: 0 <= i < k ==> (bs[i] <==> c.index + i + 1 < |c.rowIds|)
    decreases k
  {
    if k == 0 then []
    else
      var rest := ForwardResults(Forward(c).cursor, k - 1);
      assert forall i :: 0 < i < k ==> rest[i - 1] == ([Forward(c).more] + rest)[i];
      [Forward(c).more] + rest
  }

  /** Once a cursor is empty it stays empty: every further `forward` answers
      false and leaves an empty cursor behind. */
  lemma ExhaustionIsPermanent(c: ScanCursor, k: nat)
    requires IsEmpty(c)
    ensures IsEmpty(Advance(c, k))
    ensures forall i :: 0 <= i < k ==> !ForwardResults(c, k)[i]
  {
  }

  /** A cursor fresh from `New` over n identities: with n = 0 it is empty at
      once; otherwise `forward` answers true n - 1 times and then false, and
      before the k-th call the current identity is the k-th of the list and
      the current row is the answer for it of the store as it is then, `now`. */
  lemma FreshCursorScan(db: MvStore, txId: u64, tableId: u64, now: MvStore)
    requires New(db, txId, tableId).Success?
    ensures var c := New(db, txId, tableId).value;
      && c.rowIds == db.scanRowIdsForTable(tableId).value
      && (|c.rowIds| == 0 <==> IsEmpty(c))
      && (forall i :: 0 <= i < |c.rowIds| ==>
            (ForwardResults(c, |c.rowIds|)[i] <==> i < |c.rowIds| - 1))
      && IsEmpty(Advance(c, |c.rowIds|))
      && (forall k :: 0 <= k < |c.rowIds| ==>
            && CurrentRowId(Advance(c, k)) == Some(c.rowIds[k])
            && CurrentRow(Advance(c, k), now) == now.read(txId, c.rowIds[k]))
  {
  }

  /** The identities a caller collects by reading `current_row_id` and calling
      `forward` until the cursor is empty: the rest of the list, in order. */
  function Drain(c: ScanCursor): (ids: seq<RowID>)
    ensures c.InRange() ==> ids == c.rowIds[c.index..]
    ensures !c.InRange() ==> ids == []
    decreases |c.rowIds| - c.index
  {
    if IsEmpty(c) then [] else [CurrentRowId(c).value] + Drain(Forward(c).cursor)
  }

  /** The scan loop over an open cursor: while it is not empty, take the
      current identity and row, then move forward. The store may change
      between steps: `views(i)` is the store as it is at the i-th read. Every
      remaining identity is visited once, in list order, and each yields
      exactly that store's answer for it, with invisible rows reported as
      `Success(None)` and not skipped. The cursor left behind is empty. */
  method ScanTable(c: ScanCursor, views: nat -> MvStore)
    returns (ids: seq<RowID>, rows: seq<DbResult<Option<Row>>>, last: ScanCursor)
    ensures ids == Drain(c)
    ensures c.InRange() ==> ids == c.rowIds[c.index..]
    ensures !c.InRange() ==> ids == []
    ensures |rows| == |ids|
    ensures forall i :: 0 <= i < |ids| ==> rows[i] == views(i).read(c.txId, ids[i])
    ensures IsEmpty(last) && last.rowIds == c.rowIds && last.txId == c.txId
    ensures last.index == if c.InRange() then |c.rowIds| else c.index
  {
    var cur := c;
    ids := [];
    rows := [];
    while !IsEmpty(cur)
      invariant cur.rowIds == c.rowIds && cur.txId == c.txId
      invariant c.InRange() ==> c.index <= cur.index <= |c.rowIds|
      invariant c.InRange() ==> ids == c.rowIds[c.index..cur.index]
      invariant !c.InRange() ==> cur.index == c.index && ids == []
      invariant |rows| == |ids|
      invariant forall i :: 0 <= i < |ids| ==> rows[i] == views(i).read(c.txId, ids[i])
      decreases |cur.rowIds| - cur.index
    {
      ids := ids + [CurrentRowId(cur).value];
      rows := rows + [CurrentRow(cur, views(|rows|))];
      cur := Forward(cur).cursor;
    }
    last := cur;
  }
}
