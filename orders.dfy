/** Orders and packages as functions over the transaction list: the buy rows of
    one JACK order with their total and status (`getOrderDetails`), the guard of
    `handleAddOrder`, and the delivery rows of one package (`getPackageDetails`). */
module Orders {
  import opened JsValues
  import opened Transactions
  import Reports

  /** A buy row of JACK: the rows the order screens look at. */
  predicate IsJackBuy(tr: Transaction) {
    tr.Buy? && tr.person == Jack
  }

  predicate InOrder(tr: Transaction, o: string) {
    IsJackBuy(tr) && tr.orderNumber == o
  }

  /** The order numbers `getOrderNumbers` collects. */
  function JackOrderSet(ts: seq<Row>): set<string> {
    set i | 0 <= i < |ts| && IsJackBuy(ts[i].tx) :: ts[i].tx.orderNumber
  }

  /** The buy rows of JACK's order `o`, in list order. */
  function OrderRows(ts: seq<Row>, o: string): (r: seq<Row>)
    ensures forall k :: 0 <= k < |r| ==> InOrder(r[k].tx, o)
    ensures forall k :: 0 <= k < |ts| && InOrder(ts[k].tx, o) ==> ts[k] in r
    ensures multiset(r) <= multiset(ts)
  {
    if |ts| == 0 then []
    else
      assert ts == ts[..|ts| - 1] + [ts[|ts| - 1]];
      OrderRows(ts[..|ts| - 1], o) + (if InOrder(ts[|ts| - 1].tx, o) then [ts[|ts| - 1]] else [])
  }

  /** `reduce((sum, tr) => sum + Number(tr.amount), 0)`. */
  function AmountSum(rs: seq<Row>): real
    requires forall k :: 0 <= k < |rs| ==> rs[k].tx.Buy?
  {
    if |rs| == 0 then 0.0 else AmountSum(rs[..|rs| - 1]) + rs[|rs| - 1].tx.amount
  }

  /** A row added at the end of the list comes last among the rows of its order. */
  lemma OrderRowsSnoc(ts: seq<Row>, o: string, row: Row)
    ensures OrderRows(ts + [row], o) == OrderRows(ts, o) + (if InOrder(row.tx, o) then [row] else [])
  {
    assert (ts + [row])[..|ts + [row]| - 1] == ts;
  }

  /** What `getOrderDetails` returns; `lastDate` is the date of the last row, which
      the screen formats. */
  datatype OrderDetails = OrderDetails(rows: seq<Row>, totalAmount: real, lastDate: Option<int>, status: string)

  /** The status an order starts with and keeps while its last row has none. */
  const ActiveStatus: string := "active"

  /** The details of an order with buy rows `rows`. */
  function DetailsOf(rows: seq<Row>): (d: OrderDetails)
    requires forall k :: 0 <= k < |rows| ==> rows[k].tx.Buy?
    ensures d.rows == rows
    ensures d.lastDate.None? <==> rows == []
    ensures d.status != ""
  {
    if |rows| == 0 then OrderDetails(rows, 0.0, None, ActiveStatus)
    else
      var last := rows[|rows| - 1].tx;
      OrderDetails(rows, AmountSum(rows), Some(last.date), if last.status != "" then last.status else ActiveStatus)
  }

  /** `getOrderDetails(orderNumber)`. */
  function GetOrderDetails(ts: seq<Row>, o: string): (d: OrderDetails)
    ensures forall k :: 0 <= k < |d.rows| ==> InOrder(d.rows[k].tx, o)
    ensures d.lastDate.None? <==> d.rows == []
    ensures d.status != ""
  {
    DetailsOf(OrderRows(ts, o))
  }

  /** Adding a JACK buy row to order `o` adds its amount to the order's total, makes
      it the last row, and gives the order the row's status (or "active"). */
  lemma AddItemToOrder(ts: seq<Row>, o: string, row: Row)
    requires InOrder(row.tx, o)
    ensures var before, after := GetOrderDetails(ts, o), GetOrderDetails(ts + [row], o);
      && after.rows == before.rows + [row]
      && after.totalAmount == before.totalAmount + row.tx.amount
      && after.lastDate == Some(row.tx.date)
      && after.status == (if row.tx.status != "" then row.tx.status else ActiveStatus)
  {
    OrderRowsSnoc(ts, o, row);
    var rows := OrderRows(ts, o);
    assert GetOrderDetails(ts + [row], o) == DetailsOf(rows + [row]);
    DetailsSnoc(rows, row);
  }

  /** The last row of an order decides its date and status, and adds its amount. */
  lemma DetailsSnoc(rows: seq<Row>, row: Row)
    requires forall k :: 0 <= k < |rows| ==> rows[k].tx.Buy?
    requires row.tx.Buy?
    ensures var after := DetailsOf(rows + [row]);
      && after.totalAmount == DetailsOf(rows).totalAmount + row.tx.amount
      && after.lastDate == Some(row.tx.date)
      && after.status == (if row.tx.status != "" then row.tx.status else ActiveStatus)
  {
    var rows' := rows + [row];
    assert rows'[..|rows'| - 1] == rows;
    assert AmountSum(rows') == AmountSum(rows) + row.tx.amount;
  }

  /** Rows of other orders, other owners and other types do not touch order `o`. */
  lemma OtherRowLeavesOrder(ts: seq<Row>, o: string, row: Row)
    requires !InOrder(row.tx, o)
    ensures GetOrderDetails(ts + [row], o) == GetOrderDetails(ts, o)
  {
    OrderRowsSnoc(ts, o, row);
    assert OrderRows(ts + [row], o) == OrderRows(ts, o);
  }

  /** The errors of `handleAddOrder`. */
  datatype OrderError = EnterOrderNumber | OrderExists

  datatype AddOrderOutcome = OrderAdded(order: string) | OrderRejected(error: OrderError)

  /** `handleAddOrder`: the trimmed input must be non-empty and not yet an order
      number of JACK; it then becomes the selected order. */
  function AddOrder(input: string, ts: seq<Row>): (r: AddOrderOutcome)
    ensures r == OrderRejected(EnterOrderNumber) <==> AllWhitespace(input)
    ensures r == OrderRejected(OrderExists) <==> !AllWhitespace(input) && Trim(input) in JackOrderSet(ts)
    ensures r.OrderAdded? ==> r.order == Trim(input) && r.order != "" && r.order !in JackOrderSet(ts)
  {
    TrimEmptyIffWhitespace(input);
    var o := Trim(input);
    if o == "" then OrderRejected(EnterOrderNumber)
    else if o in JackOrderSet(ts) then OrderRejected(OrderExists)
    else OrderAdded(o)
  }

  /** A freshly added order has no rows yet: no total, no date, status "active". */
  lemma NewOrderIsEmpty(input: string, ts: seq<Row>)
    requires AddOrder(input, ts).OrderAdded?
    ensures GetOrderDetails(ts, AddOrder(input, ts).order) == OrderDetails([], 0.0, None, ActiveStatus)
  {
    var o := AddOrder(input, ts).order;
    OrderedNumberIsKnown(ts, o);
  }

  /** An order that has rows is one of JACK's order numbers. */
  lemma OrderedNumberIsKnown(ts: seq<Row>, o: string)
    ensures OrderRows(ts, o) != [] ==> o in JackOrderSet(ts)
  {
    var rows := OrderRows(ts, o);
    if rows != [] {
      assert rows[0] in multiset(ts);
      var i :| 0 <= i < |ts| && ts[i] == rows[0];
      assert ts[i].tx.orderNumber in JackOrderSet(ts);
    }
  }

  /** The delivery numbers `getDeliveryNumbers` collects: the truthy ones. */
  function DeliveryNumberSet(ts: seq<Row>): set<string> {
    set i | 0 <= i < |ts| && ts[i].tx.Delivery? && ts[i].tx.deliveryNumber != "" :: ts[i].tx.deliveryNumber
  }

  predicate InPackage(tr: Transaction, dn: string) {
    tr.Delivery? && tr.deliveryNumber == dn
  }

  /** The delivery rows of package `dn`, in list order. */
  function PackageRows(ts: seq<Row>, dn: string): (r: seq<Row>)
    ensures forall k :: 0 <= k < |r| ==> InPackage(r[k].tx, dn)
    ensures forall k :: 0 <= k < |ts| && InPackage(ts[k].tx, dn) ==> ts[k] in r
    ensures multiset(r) <= multiset(ts)
  {
    if |ts| == 0 then []
    else
      assert ts == [ts[0]] + ts[1..];
      (if InPackage(ts[0].tx, dn) then [ts[0]] else []) + PackageRows(ts[1..], dn)
  }

  /** `getPackageDetails(deliveryNumber)`. */
  function PackageDetails(ts: seq<Row>, dn: string): seq<Row> {
    Reports.SortByDateDesc(PackageRows(ts, dn))
  }

  /** The package filter keeps list order: the `k`-th row of the package is the
      row at position `f[k]` of the list, and the positions increase. */
  lemma {:induction false} PackageRowsInOrder(ts: seq<Row>, dn: string) returns (f: seq<nat>)
    ensures Reports.PicksInOrder(PackageRows(ts, dn), ts, f)
    decreases |ts|
  {
    if |ts| == 0 {
      f := [];
    } else {
      var tail := ts[1..];
      var g := PackageRowsInOrder(tail, dn);
      assert ts == [ts[0]] + tail;
      if InPackage(ts[0].tx, dn) {
        assert PackageRows(ts, dn) == [ts[0]] + PackageRows(tail, dn);
        Reports.PicksKeep(ts[0], PackageRows(tail, dn), tail, g);
        f := [0] + Reports.Shift(g);
      } else {
        assert PackageRows(ts, dn) == PackageRows(tail, dn);
        Reports.PicksSkip(ts[0], PackageRows(tail, dn), tail, g);
        f := Reports.Shift(g);
      }
    }
  }

  /** The date sort of the package view is stable, as `Array.prototype.sort` is:
      the deliveries of one date appear in the view in the order of the list. */
  lemma PackageDetailsStable(ts: seq<Row>, dn: string) returns (f: seq<nat>)
    ensures Reports.PicksInOrder(PackageRows(ts, dn), ts, f)
    ensures forall d :: Reports.DatedRows(PackageDetails(ts, dn), d) == Reports.DatedRows(PackageRows(ts, dn), d)
  {
    f := PackageRowsInOrder(ts, dn);
    forall d ensures Reports.DatedRows(PackageDetails(ts, dn), d) == Reports.DatedRows(PackageRows(ts, dn), d) {
      Reports.SortByDateDescStable(PackageRows(ts, dn), d);
    }
  }

  /** The package view holds exactly the deliveries of that package, newest first. */
  lemma PackageDetailsSpec(ts: seq<Row>, dn: string)
    ensures var v := PackageDetails(ts, dn);
      && multiset(v) <= multiset(ts)
      && (forall k :: 0 <= k < |v| ==> InPackage(v[k].tx, dn))
      && (forall k :: 0 <= k < |ts| && InPackage(ts[k].tx, dn) ==> ts[k] in v)
      && Reports.SortedByDateDesc(v)
  {
    var f := PackageRows(ts, dn);
    var v := PackageDetails(ts, dn);
    Reports.SortByDateDescSorted(f);
    forall k | 0 <= k < |v| ensures InPackage(v[k].tx, dn) {
      assert v[k] in multiset(f);
    }
    forall k | 0 <= k < |ts| && InPackage(ts[k].tx, dn) ensures ts[k] in v {
      assert ts[k] in multiset(f);
      assert ts[k] in multiset(v);
    }
  }
}
