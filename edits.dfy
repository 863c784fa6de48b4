/** The edits of the transaction list, as functions from the old list to the new
    one: removing and replacing a row by object identity (`filter(tr => tr !==
    x)`, `map(tr => tr === x ? … : tr)`), and by position, as the reports screen
    does (`filter((_, i) => i !== idx)`, `list[idx] = …`). */
module Edits {
  import opened JsValues
  import opened Transactions
  import Reports
  import Validation

  /** No two rows are the same object. */
  predicate DistinctIds(ts: seq<Row>) {
    forall i, j :: 0 <= i < j < |ts| ==> ts[i].id != ts[j].id
  }

  /** `filter((_, k) => k !== i)`. */
  function RemoveAt(ts: seq<Row>, i: nat): (r: seq<Row>)
    requires i < |ts|
    ensures |r| == |ts| - 1
    ensures forall k :: 0 <= k < i ==> r[k] == ts[k]
    ensures forall k :: i <= k < |r| ==> r[k] == ts[k + 1]
  {
    ts[..i] + ts[i + 1..]
  }

  /** `filter(tr => tr !== x)` for the object with identity `id`. */
  function RemoveRow(ts: seq<Row>, id: nat): (r: seq<Row>)
    ensures forall k :: 0 <= k < |r| ==> r[k].id != id
    ensures forall k :: 0 <= k < |ts| && ts[k].id != id ==> ts[k] in r
    ensures multiset(r) <= multiset(ts)
  {
    if |ts| == 0 then []
    else
      assert ts == [ts[0]] + ts[1..];
      (if ts[0].id != id then [ts[0]] else []) + RemoveRow(ts[1..], id)
  }

  /** Removing an object that is not in the list changes nothing. */
  lemma {:induction false} RemoveAbsentRow(ts: seq<Row>, id: nat)
    requires forall k :: 0 <= k < |ts| ==> ts[k].id != id
    ensures RemoveRow(ts, id) == ts
  {
    if |ts| > 0 {
      RemoveAbsentRow(ts[1..], id);
      assert ts == [ts[0]] + ts[1..];
    }
  }

  /** Removing an object keeps the other objects distinct. */
  lemma {:induction false} RemoveRowKeepsDistinct(ts: seq<Row>, id: nat)
    requires DistinctIds(ts)
    ensures DistinctIds(RemoveRow(ts, id))
    decreases |ts|
  {
    if |ts| > 0 {
      var tail := ts[1..];
      DistinctTail(ts);
      RemoveRowKeepsDistinct(tail, id);
      var rest := RemoveRow(tail, id);
      if ts[0].id != id {
        forall m | 0 <= m < |rest| ensures rest[m].id != ts[0].id {
          assert rest[m] in multiset(tail);
          var k :| 0 <= k < |tail| && tail[k] == rest[m];
          assert ts[k + 1] == rest[m];
        }
        DistinctCons(ts[0], rest);
      }
    }
  }

  lemma DistinctCons(x: Row, rest: seq<Row>)
    requires DistinctIds(rest) && forall m :: 0 <= m < |rest| ==> rest[m].id != x.id
    ensures DistinctIds([x] + rest)
  {
    var r := [x] + rest;
    forall a, b | 0 <= a < b < |r| ensures r[a].id != r[b].id {
      assert r[b] == rest[b - 1];
      if a > 0 {
        assert r[a] == rest[a - 1];
      }
    }
  }

  /** With distinct identities, removing the object at position `i` is removing
      position `i`: the other rows stay, in their order. */
  lemma {:induction false} RemoveRowIsRemoveAt(ts: seq<Row>, i: nat)
    requires DistinctIds(ts) && i < |ts|
    ensures RemoveRow(ts, ts[i].id) == RemoveAt(ts, i)
    decreases i
  {
    var id := ts[i].id;
    var tail := ts[1..];
    DistinctTail(ts);
    if i == 0 {
      assert forall k :: 0 <= k < |tail| ==> tail[k].id != id by {
        forall k | 0 <= k < |tail| ensures tail[k].id != id {
          assert tail[k] == ts[k + 1];
        }
      }
      RemoveAbsentRow(tail, id);
    } else {
      assert tail[i - 1] == ts[i];
      RemoveRowIsRemoveAt(tail, i - 1);
      assert RemoveRow(ts, id) == [ts[0]] + RemoveAt(tail, i - 1) by {
        assert ts[0].id != id;
      }
      ConsRemoveAt(ts, i);
    }
  }

  lemma DistinctTail(ts: seq<Row>)
    requires DistinctIds(ts) && |ts| > 0
    ensures DistinctIds(ts[1..])
  {
    var tail := ts[1..];
    forall a, b | 0 <= a < b < |tail| ensures tail[a].id != tail[b].id {
      assert tail[a] == ts[a + 1] && tail[b] == ts[b + 1];
    }
  }

  lemma ConsRemoveAt(ts: seq<Row>, i: nat)
    requires 0 < i < |ts|
    ensures [ts[0]] + RemoveAt(ts[1..], i - 1) == RemoveAt(ts, i)
  {
    var tail := ts[1..];
    assert [ts[0]] + (tail[..i - 1] + tail[i..]) == ts[..i] + ts[i + 1..];
  }

  /** `map(tr => tr === x ? updated : tr)`: every slot holding the object `id` takes
      the record `tx` and keeps its identity. */
  function ReplaceRow(ts: seq<Row>, id: nat, tx: Transaction): (r: seq<Row>)
    ensures |r| == |ts|
    ensures forall k :: 0 <= k < |ts| ==> r[k].id == ts[k].id
    ensures forall k :: 0 <= k < |ts| && ts[k].id == id ==> r[k].tx == tx
    ensures forall k :: 0 <= k < |ts| && ts[k].id != id ==> r[k] == ts[k]
  {
    if |ts| == 0 then []
    else [if ts[0].id == id then Row(id, tx) else ts[0]] + ReplaceRow(ts[1..], id, tx)
  }

  /** With distinct identities, replacing the object at position `i` is writing
      position `i`. */
  lemma ReplaceRowIsUpdateAt(ts: seq<Row>, i: nat, tx: Transaction)
    requires DistinctIds(ts) && i < |ts|
    ensures ReplaceRow(ts, ts[i].id, tx) == ts[i := Row(ts[i].id, tx)]
  {
  }

  /** The buy screen's `handleUpdateTransaction`: the row that is the object being
      edited takes the edit buffer's amount, description, category and status. */
  function UpdateBuyRows(ts: seq<Row>, id: nat, amount: real, description: string,
                         category: string, status: string): (r: seq<Row>)
    ensures |r| == |ts|
    ensures forall k :: 0 <= k < |ts| ==> r[k].id == ts[k].id
    ensures forall k :: 0 <= k < |ts| && ts[k].id == id && ts[k].tx.Buy? ==>
      r[k].tx == ts[k].tx.(amount := amount, description := description, category := category, status := status)
    ensures forall k :: 0 <= k < |ts| && !(ts[k].id == id && ts[k].tx.Buy?) ==> r[k] == ts[k]
  {
    if |ts| == 0 then []
    else
      var head := ts[0];
      var head' := if head.id == id && head.tx.Buy? then
        Row(id, head.tx.(amount := amount, description := description, category := category, status := status))
      else head;
      [head'] + UpdateBuyRows(ts[1..], id, amount, description, category, status)
  }

  /** An item edit keeps every row's type, owner and order number, so JACK's
      orders are the same before and after it. */
  lemma UpdateBuyKeepsOrders(ts: seq<Row>, id: nat, amount: real, description: string,
                             category: string, status: string)
    ensures var r := UpdateBuyRows(ts, id, amount, description, category, status);
      forall k :: 0 <= k < |ts| ==>
        r[k].tx.Buy? == ts[k].tx.Buy? && r[k].tx.PersonField() == ts[k].tx.PersonField()
        && r[k].tx.OrderNumberField() == ts[k].tx.OrderNumberField()
  {
  }

  /** As written, every keystroke in the buy screen's edit row spreads the buffer
      into a new object, so once anything is typed the buffer is an object that is
      not in the list: the save matches no row and changes nothing. */
  lemma EditedBuyBufferSavesNothing(ts: seq<Row>, bufferId: nat, amount: real, description: string,
                                    category: string, status: string)
    requires forall k :: 0 <= k < |ts| ==> ts[k].id != bufferId
    ensures UpdateBuyRows(ts, bufferId, amount, description, category, status) == ts
  {
    var r := UpdateBuyRows(ts, bufferId, amount, description, category, status);
    assert forall k :: 0 <= k < |ts| ==> r[k] == ts[k];
  }

  // -------------------------------------------------- reports: view positions

  /** The reports screen's `confirmDelete` as written: the index of the clicked
      row in the filtered, sorted view is used as a position in the full list. An
      index past the end of the list finds nothing. */
  function ReportsDeleteAsWritten(ts: seq<Row>, c: Reports.Criteria, idx: nat): (r: Option<seq<Row>>)
    ensures r.Some? <==> idx < |ts|
    ensures r.Some? ==> && |r.value| == |ts| - 1
                        && (forall k :: 0 <= k < idx ==> r.value[k] == ts[k])
                        && (forall k :: idx <= k < |r.value| ==> r.value[k] == ts[k + 1])
  {
    if idx < |ts| then Some(RemoveAt(ts, idx)) else None
  }

  /** On a list of two rows, the older first, the unfiltered view shows the newer
      one first; deleting that first view row removes the older row instead and
      keeps the one that was clicked. */
  lemma ReportsDeleteWrongRow(u: string)
    ensures var a := Row(0, Receive(u, 1, "", "A", 10.0, Usd, None));
      var b := Row(1, Receive(u, 2, "", "B", 20.0, Usd, None));
      && Reports.FilteredTransactions([a, b], Reports.NoCriteria)[0] == b
      && ReportsDeleteAsWritten([a, b], Reports.NoCriteria, 0) == Some([b])
  {
    var a := Row(0, Receive(u, 1, "", "A", 10.0, Usd, None));
    var b := Row(1, Receive(u, 2, "", "B", 20.0, Usd, None));
    Reports.FilterKeepsAll([a, b], Reports.NoCriteria);
    assert [a, b][1..] == [b];
    assert [b][1..] == [];
    assert Reports.SortByDateDesc([b]) == [b];
    assert Reports.SortByDateDesc([a, b]) == Reports.InsertByDate(a, [b]) == [b, a];
    assert RemoveAt([a, b], 0) == [b];
  }

  /** The reports delete as intended: the row shown at `idx` is removed. */
  function ReportsDelete(ts: seq<Row>, c: Reports.Criteria, idx: nat): (r: Option<seq<Row>>)
    ensures r.Some? <==> idx < |Reports.FilteredTransactions(ts, c)|
  {
    var view := Reports.FilteredTransactions(ts, c);
    if idx < |view| then Some(RemoveRow(ts, view[idx].id)) else None
  }

  /** The row shown at `idx` is gone, every other row stays in its order, and the
      list is one shorter. */
  lemma ReportsDeleteRemovesShownRow(ts: seq<Row>, c: Reports.Criteria, idx: nat)
    requires DistinctIds(ts) && idx < |Reports.FilteredTransactions(ts, c)|
    ensures var shown := Reports.FilteredTransactions(ts, c)[idx];
      exists i :: 0 <= i < |ts| && ts[i] == shown && ReportsDelete(ts, c, idx) == Some(RemoveAt(ts, i))
  {
    var view := Reports.FilteredTransactions(ts, c);
    Reports.FilteredTransactionsSpec(ts, c);
    assert view[idx] in multiset(ts);
    var i :| 0 <= i < |ts| && ts[i] == view[idx];
    RemoveRowIsRemoveAt(ts, i);
  }

  /** The reports screen's `handleEdit` and `saveEdit` as written: the edit buffer
      is a copy of the row at the view's index taken in the full list, and the
      saved record goes back to that position as a new object `newId`. */
  function ReportsSaveEditAsWritten(ts: seq<Row>, idx: nat, edited: Transaction, newId: nat): (r: Option<seq<Row>>)
    ensures r.Some? <==> idx < |ts| && Validation.ValidateTransaction(Some(edited))
    ensures r.Some? ==> && |r.value| == |ts| && r.value[idx] == Row(newId, edited)
                        && (forall k :: 0 <= k < |ts| && k != idx ==> r.value[k] == ts[k])
  {
    if idx < |ts| && Validation.ValidateTransaction(Some(edited)) then Some(ts[idx := Row(newId, edited)]) else None
  }

  /** On the same two rows, editing the first view row (the newer one) overwrites
      the older row: the saved record lands at position 0 of the full list, and
      the row that was clicked stays as it was. */
  lemma ReportsSaveEditWrongRow(u: string, e: Transaction)
    requires Validation.ValidateTransaction(Some(e))
    ensures var a := Row(0, Receive(u, 1, "", "A", 10.0, Usd, None));
      var b := Row(1, Receive(u, 2, "", "B", 20.0, Usd, None));
      && Reports.FilteredTransactions([a, b], Reports.NoCriteria)[0] == b
      && ReportsSaveEditAsWritten([a, b], 0, e, 7) == Some([Row(7, e), b])
  {
    ReportsDeleteWrongRow(u);
    SaveEditAtFirst(Row(0, Receive(u, 1, "", "A", 10.0, Usd, None)), Row(1, Receive(u, 2, "", "B", 20.0, Usd, None)), e);
  }

  /** As written, saving at position 0 of a two-row list replaces the first row. */
  lemma SaveEditAtFirst(a: Row, b: Row, e: Transaction)
    requires Validation.ValidateTransaction(Some(e))
    ensures ReportsSaveEditAsWritten([a, b], 0, e, 7) == Some([Row(7, e), b])
  {
    assert [a, b][0 := Row(7, e)] == [Row(7, e), b];
  }

  /** The reports edit as intended: the record the buffer holds replaces the row
      shown at `idx`, which keeps its place. The buffer is validated with the
      buy-aware validator. */
  function ReportsSaveEdit(ts: seq<Row>, c: Reports.Criteria, idx: nat, edited: Transaction): (r: Option<seq<Row>>)
    ensures r.Some? <==> idx < |Reports.FilteredTransactions(ts, c)| && ValidateEdit(edited)
    ensures r.Some? ==> |r.value| == |ts|
  {
    var view := Reports.FilteredTransactions(ts, c);
    if idx < |view| && ValidateEdit(edited) then Some(ReplaceRow(ts, view[idx].id, edited)) else None
  }

  /** The shown row takes the edited record in its own place; nothing else changes. */
  lemma ReportsSaveEditReplacesShownRow(ts: seq<Row>, c: Reports.Criteria, idx: nat, edited: Transaction)
    requires DistinctIds(ts) && idx < |Reports.FilteredTransactions(ts, c)| && ValidateEdit(edited)
    ensures var shown := Reports.FilteredTransactions(ts, c)[idx];
      exists i :: 0 <= i < |ts| && ts[i] == shown
        && ReportsSaveEdit(ts, c, idx, edited) == Some(ts[i := Row(shown.id, edited)])
  {
    var view := Reports.FilteredTransactions(ts, c);
    Reports.FilteredTransactionsSpec(ts, c);
    assert view[idx] in multiset(ts);
    var i :| 0 <= i < |ts| && ts[i] == view[idx];
    ReplaceRowIsUpdateAt(ts, i, edited);
  }

  // ------------------------------------------------ the buy case of the validator

  /** The global validator with its buy case reading `amount || quantity`, as the
      reports screen shows and edits buy rows; every other case is unchanged. */
  predicate ValidateEdit(tr: Transaction) {
    if tr.Buy? then tr.orderNumber != "" && (tr.amount != 0.0 || Truthy(tr.quantity))
    else Validation.ValidateTransaction(Some(tr))
  }

  /** As written, a buy row the buy form made (no quantity) fails the validator
      whatever its amount, so a reports edit of such a row is always refused. */
  lemma BuyFormRowRefusedAsWritten(tr: Transaction)
    requires tr.Buy? && tr.quantity.None?
    ensures !Validation.ValidateTransaction(Some(tr))
    ensures tr.orderNumber != "" && tr.amount > 0.0 ==> ValidateEdit(tr)
  {
  }

  /** The two validators agree on every record except buy rows, and on a buy row
      carrying a quantity the corrected one accepts whatever the original accepts. */
  lemma ValidateEditExtends(tr: Transaction)
    ensures !tr.Buy? ==> (ValidateEdit(tr) <==> Validation.ValidateTransaction(Some(tr)))
    ensures Validation.ValidateTransaction(Some(tr)) ==> ValidateEdit(tr)
  {
  }
}
