/** The reports screen as functions: the filter chain of `getFilteredTransactions`
    followed by its sort by date, newest first; the amounts `calculateSummary` adds
    up per type and currency; and the names `getUniquePersons` collects. */
module Reports {
  import opened JsValues
  import opened Transactions

  /** The filter inputs. An absent date, an empty person, an absent type and an
      empty search term are inactive. `start` and `end` are the timestamps of the
      chosen days. */
  datatype Criteria = Criteria(start: Option<int>, end: Option<int>, person: string,
                               kind: Option<Kind>, search: string)

  const NoCriteria: Criteria := Criteria(None, None, "", None, "")

  /** `end.setHours(23, 59, 59, 999)`: the last millisecond of the end day. */
  function EndOfDay(day: int): int {
    day + 86_399_999
  }

  predicate InDateRange(c: Criteria, tr: Transaction) {
    (c.start.None? || tr.date >= c.start.value) && (c.end.None? || tr.date <= EndOfDay(c.end.value))
  }

  /** The person filter looks at `person`, `from` and `to`. */
  predicate MatchesPerson(sel: string, tr: Transaction) {
    sel == ""
    || (tr.PersonField() != "" && tr.PersonField() == sel)
    || (tr.FromField() != "" && tr.FromField() == sel)
    || (tr.ToField() != "" && tr.ToField() == sel)
  }

  predicate MatchesType(k: Option<Kind>, tr: Transaction) {
    k.None? || tr.TypeOf() == k.value
  }

  /** The search term is looked for in `person`, `from`, `to`, `orderNumber` and
      `deliveryNumber`. */
  predicate MatchesSearch(q: string, tr: Transaction) {
    q == ""
    || (tr.PersonField() != "" && Includes(tr.PersonField(), q))
    || (tr.FromField() != "" && Includes(tr.FromField(), q))
    || (tr.ToField() != "" && Includes(tr.ToField(), q))
    || (tr.OrderNumberField() != "" && Includes(tr.OrderNumberField(), q))
    || (tr.DeliveryNumberField() != "" && Includes(tr.DeliveryNumberField(), q))
  }

  /** The conjunction of the chain's filters. */
  predicate Keeps(c: Criteria, tr: Transaction) {
    InDateRange(c, tr) && MatchesPerson(c.person, tr) && MatchesType(c.kind, tr) && MatchesSearch(c.search, tr)
  }

  /** The filter chain; each `filter` keeps the order of what it keeps (`FilterRowsInOrder`). */
  function FilterRows(ts: seq<Row>, c: Criteria): (r: seq<Row>)
    ensures forall k :: 0 <= k < |r| ==> Keeps(c, r[k].tx)
    ensures forall k :: 0 <= k < |ts| && Keeps(c, ts[k].tx) ==> ts[k] in r
    ensures multiset(r) <= multiset(ts)
  {
    if |ts| == 0 then []
    else
      assert ts == [ts[0]] + ts[1..];
      (if Keeps(c, ts[0].tx) then [ts[0]] else []) + FilterRows(ts[1..], c)
  }

  /** A list whose rows all pass is left as it is. */
  lemma {:induction false} FilterKeepsAll(ts: seq<Row>, c: Criteria)
    requires forall k :: 0 <= k < |ts| ==> Keeps(c, ts[k].tx)
    ensures FilterRows(ts, c) == ts
  {
    if |ts| > 0 {
      var tail := ts[1..];
      assert Keeps(c, ts[0].tx);
      assert forall k :: 0 <= k < |tail| ==> Keeps(c, tail[k].tx) by {
        forall k | 0 <= k < |tail| ensures Keeps(c, tail[k].tx) {
          assert tail[k] == ts[k + 1];
        }
      }
      FilterKeepsAll(tail, c);
      assert FilterRows(ts, c) == [ts[0]] + FilterRows(tail, c);
      assert ts == [ts[0]] + tail;
    }
  }

  /** The positions `g`, each one further on. */
  function Shift(g: seq<nat>): (r: seq<nat>)
    ensures |r| == |g|
    ensures forall k :: 0 <= k < |r| ==> r[k] == g[k] + 1
  {
    seq(|g|, k requires 0 <= k < |g| => g[k] + 1)
  }

  /** `r` is `ts` picked at the increasing positions `f`. */
  predicate PicksInOrder(r: seq<Row>, ts: seq<Row>, f: seq<nat>) {
    && |f| == |r|
    && (forall k :: 0 <= k < |f| ==> f[k] < |ts| && r[k] == ts[f[k]])
    && (forall a, b :: 0 <= a < b < |f| ==> f[a] < f[b])
  }

  lemma PicksKeep(x: Row, r: seq<Row>, tail: seq<Row>, g: seq<nat>)
    requires PicksInOrder(r, tail, g)
    ensures PicksInOrder([x] + r, [x] + tail, [0] + Shift(g))
  {
    var f := [0] + Shift(g);
    forall k | 0 <= k < |f| ensures f[k] < |[x] + tail| && ([x] + r)[k] == ([x] + tail)[f[k]] {
      if k > 0 {
        assert ([x] + r)[k] == r[k - 1] == tail[g[k - 1]] == ([x] + tail)[f[k]];
      }
    }
  }

  lemma PicksSkip(x: Row, r: seq<Row>, tail: seq<Row>, g: seq<nat>)
    requires PicksInOrder(r, tail, g)
    ensures PicksInOrder(r, [x] + tail, Shift(g))
  {
    var f := Shift(g);
    forall k | 0 <= k < |f| ensures f[k] < |[x] + tail| && r[k] == ([x] + tail)[f[k]] {
      assert r[k] == tail[g[k]] == ([x] + tail)[f[k]];
    }
  }

  /** Each filter keeps the order of what it keeps: the `k`-th kept row is the row
      at position `f[k]` of the list, and the positions increase. */
  lemma {:induction false} FilterRowsInOrder(ts: seq<Row>, c: Criteria) returns (f: seq<nat>)
    ensures PicksInOrder(FilterRows(ts, c), ts, f)
    decreases |ts|
  {
    if |ts| == 0 {
      f := [];
    } else {
      var tail := ts[1..];
      var g := FilterRowsInOrder(tail, c);
      assert ts == [ts[0]] + tail;
      if Keeps(c, ts[0].tx) {
        assert FilterRows(ts, c) == [ts[0]] + FilterRows(tail, c);
        PicksKeep(ts[0], FilterRows(tail, c), tail, g);
        f := [0] + Shift(g);
      } else {
        assert FilterRows(ts, c) == FilterRows(tail, c);
        PicksSkip(ts[0], FilterRows(tail, c), tail, g);
        f := Shift(g);
      }
    }
  }

  predicate SortedByDateDesc(s: seq<Row>) {
    forall i, j :: 0 <= i < j < |s| ==> s[i].tx.date >= s[j].tx.date
  }

  /** Puts `x` before the first row that is not newer than it, so rows of the same
      date keep their order (`InsertByDateStable`). */
  function InsertByDate(x: Row, s: seq<Row>): (r: seq<Row>)
    ensures multiset(r) == multiset(s) + multiset{x}
    ensures |r| == |s| + 1
  {
    if |s| == 0 then [x]
    else if x.tx.date >= s[0].tx.date then [x] + s
    else
      assert s == [s[0]] + s[1..];
      [s[0]] + InsertByDate(x, s[1..])
  }

  /** `sort((a, b) => new Date(b.date) - new Date(a.date))`, stable as
      `Array.prototype.sort` is (`SortByDateDescStable`). */
  function SortByDateDesc(s: seq<Row>): (r: seq<Row>)
    ensures multiset(r) == multiset(s)
    ensures |r| == |s|
  {
    if |s| == 0 then []
    else
      assert s == [s[0]] + s[1..];
      InsertByDate(s[0], SortByDateDesc(s[1..]))
  }

  /** The rows of `s` dated `d`, in their order in `s`. */
  function DatedRows(s: seq<Row>, d: int): seq<Row> {
    if |s| == 0 then [] else (if s[0].tx.date == d then [s[0]] else []) + DatedRows(s[1..], d)
  }

  lemma DatedRowsCons(a: Row, t: seq<Row>, d: int)
    ensures DatedRows([a] + t, d) == (if a.tx.date == d then [a] else []) + DatedRows(t, d)
  {
    assert ([a] + t)[1..] == t;
  }

  /** Inserting `x` puts it before every row of its own date and leaves the order
      of each date's rows as it was. */
  lemma {:induction false} InsertByDateStable(x: Row, s: seq<Row>, d: int)
    ensures DatedRows(InsertByDate(x, s), d) == (if x.tx.date == d then [x] else []) + DatedRows(s, d)
    decreases |s|
  {
    if |s| == 0 {
      DatedRowsCons(x, [], d);
    } else if x.tx.date >= s[0].tx.date {
      DatedRowsCons(x, s, d);
    } else {
      var t := InsertByDate(x, s[1..]);
      assert InsertByDate(x, s) == [s[0]] + t;
      InsertByDateStable(x, s[1..], d);
      DatedRowsStep(s[0], x, t, s[1..], d);
      assert [s[0]] + s[1..] == s;
    }
  }

  /** A row newer than `x` in front of both sides keeps the two sides' dated rows in step. */
  lemma DatedRowsStep(a: Row, x: Row, t: seq<Row>, rest: seq<Row>, d: int)
    requires a.tx.date > x.tx.date
    requires DatedRows(t, d) == (if x.tx.date == d then [x] else []) + DatedRows(rest, d)
    ensures DatedRows([a] + t, d) == (if x.tx.date == d then [x] else []) + DatedRows([a] + rest, d)
  {
    DatedRowsCons(a, t, d);
    DatedRowsCons(a, rest, d);
  }

  /** The date sort is stable: the rows of each date keep their order in the input. */
  lemma {:induction false} SortByDateDescStable(s: seq<Row>, d: int)
    ensures DatedRows(SortByDateDesc(s), d) == DatedRows(s, d)
    decreases |s|
  {
    if |s| > 0 {
      SortByDateDescStable(s[1..], d);
      InsertByDateStable(s[0], SortByDateDesc(s[1..]), d);
    }
  }

  lemma {:induction false} InsertByDateSorted(x: Row, s: seq<Row>)
    requires SortedByDateDesc(s)
    ensures SortedByDateDesc(InsertByDate(x, s))
    decreases |s|
  {
    if |s| > 0 && x.tx.date < s[0].tx.date {
      InsertByDateSorted(x, s[1..]);
      var t := InsertByDate(x, s[1..]);
      var r := InsertByDate(x, s);
      assert r == [s[0]] + t;
      forall j | 1 <= j < |r| ensures r[0].tx.date >= r[j].tx.date {
        assert r[j] == t[j - 1];
        assert t[j - 1] in multiset(s[1..]) + multiset{x};
        if t[j - 1] != x {
          assert t[j - 1] in s[1..];
        }
      }
    }
  }

  lemma {:induction false} SortByDateDescSorted(s: seq<Row>)
    ensures SortedByDateDesc(SortByDateDesc(s))
    decreases |s|
  {
    if |s| > 0 {
      SortByDateDescSorted(s[1..]);
      InsertByDateSorted(s[0], SortByDateDesc(s[1..]));
    }
  }

  /** Sorting a list that is already newest-first changes nothing. */
  lemma {:induction false} SortSortedIsIdentity(s: seq<Row>)
    requires SortedByDateDesc(s)
    ensures SortByDateDesc(s) == s
    decreases |s|
  {
    if |s| > 0 {
      SortSortedIsIdentity(s[1..]);
      assert s == [s[0]] + s[1..];
    }
  }

  /** `getFilteredTransactions()`. */
  function FilteredTransactions(ts: seq<Row>, c: Criteria): seq<Row> {
    SortByDateDesc(FilterRows(ts, c))
  }

  /** What the report shows: only rows of the list, each passing every active
      criterion, every passing row of the list, newest first. */
  lemma FilteredTransactionsSpec(ts: seq<Row>, c: Criteria)
    ensures var v := FilteredTransactions(ts, c);
      && multiset(v) <= multiset(ts)
      && (forall k :: 0 <= k < |v| ==> Keeps(c, v[k].tx))
      && (forall k :: 0 <= k < |ts| && Keeps(c, ts[k].tx) ==> ts[k] in v)
      && SortedByDateDesc(v)
  {
    var f := FilterRows(ts, c);
    var v := FilteredTransactions(ts, c);
    SortByDateDescSorted(f);
    forall k | 0 <= k < |v| ensures Keeps(c, v[k].tx) {
      assert v[k] in multiset(f);
    }
    forall k | 0 <= k < |ts| && Keeps(c, ts[k].tx) ensures ts[k] in v {
      assert ts[k] in multiset(f);
      assert ts[k] in multiset(v);
    }
  }

  /** Filtering the report by the same criteria again gives the same report. */
  lemma FilteredTransactionsIdempotent(ts: seq<Row>, c: Criteria)
    ensures FilteredTransactions(FilteredTransactions(ts, c), c) == FilteredTransactions(ts, c)
  {
    var v := FilteredTransactions(ts, c);
    FilteredTransactionsSpec(ts, c);
    FilterKeepsAll(v, c);
    SortSortedIsIdentity(v);
  }

  /** With every criterion inactive the report holds the whole list, newest first. */
  lemma NoCriteriaKeepsAll(ts: seq<Row>)
    ensures multiset(FilteredTransactions(ts, NoCriteria)) == multiset(ts)
  {
    FilterKeepsAll(ts, NoCriteria);
  }

  /** A report filtered by a person holds only rows where that person is the
      `person`, the `from` or the `to`. */
  lemma PersonFilterSound(ts: seq<Row>, c: Criteria, k: nat)
    requires c.person != "" && k < |FilteredTransactions(ts, c)|
    ensures var tr := FilteredTransactions(ts, c)[k].tx;
      tr.PersonField() == c.person || tr.FromField() == c.person || tr.ToField() == c.person
  {
    FilteredTransactionsSpec(ts, c);
  }

  // ------------------------------------------------------------------ summary

  /** `Number(tr.amount || tr.quantity || 0)`. */
  function SummaryAmount(tr: Transaction): real {
    if Truthy(tr.AmountField()) then tr.AmountField().value
    else if Truthy(tr.QuantityField()) then tr.QuantityField().value
    else 0.0
  }

  /** The amount a row adds to the summary cell of type `k` and currency `c`. */
  function CellShare(tr: Transaction, k: Kind, c: Currency): real {
    if tr.TypeOf() == k && tr.CurrencyField() == Some(c) then SummaryAmount(tr) else 0.0
  }

  /** The summary cell of type `k` and currency `c`. */
  function KindTotal(ts: seq<Row>, k: Kind, c: Currency): real {
    if |ts| == 0 then 0.0 else KindTotal(ts[..|ts| - 1], k, c) + CellShare(ts[|ts| - 1].tx, k, c)
  }

  /** Everything the rows in currency `c` amount to, whatever their type. */
  function CurrencyTotal(ts: seq<Row>, c: Currency): real {
    if |ts| == 0 then 0.0
    else CurrencyTotal(ts[..|ts| - 1], c) + (if ts[|ts| - 1].tx.CurrencyField() == Some(c) then SummaryAmount(ts[|ts| - 1].tx) else 0.0)
  }

  /** The five types, in the order of the `summary` object. */
  const AllKinds: seq<Kind> := [ReceiveKind, PayKind, TransferKind, BuyKind, DeliveryKind]

  /** The sum over the first `n` types of the summary cells in currency `c`. */
  function KindsTotal(ts: seq<Row>, n: nat, c: Currency): real
    requires n <= |AllKinds|
  {
    if n == 0 then 0.0 else KindsTotal(ts, n - 1, c) + KindTotal(ts, AllKinds[n - 1], c)
  }

  /** The totals row (adding up the five type rows) is every row of currency `c`
      counted once. */
  lemma {:induction false} TotalsAreCurrencyTotals(ts: seq<Row>, c: Currency)
    ensures KindsTotal(ts, |AllKinds|, c) == CurrencyTotal(ts, c)
  {
    if |ts| > 0 {
      var init, last := ts[..|ts| - 1], ts[|ts| - 1].tx;
      TotalsAreCurrencyTotals(init, c);
      KindsTotalFive(ts, c);
      KindsTotalFive(init, c);
      var share := if last.CurrencyField() == Some(c) then SummaryAmount(last) else 0.0;
      assert CurrencyTotal(ts, c) == CurrencyTotal(init, c) + share;
      forall k ensures KindTotal(ts, k, c) == KindTotal(init, k, c) + CellShare(last, k, c) { }
      assert CellShare(last, ReceiveKind, c) + CellShare(last, PayKind, c) + CellShare(last, TransferKind, c)
        + CellShare(last, BuyKind, c) + CellShare(last, DeliveryKind, c) == share;
      assert KindsTotal(ts, |AllKinds|, c) == KindsTotal(init, |AllKinds|, c) + share;
    } else {
      KindsTotalFive(ts, c);
    }
  }

  lemma KindsTotalFive(ts: seq<Row>, c: Currency)
    ensures KindsTotal(ts, |AllKinds|, c)
      == KindTotal(ts, ReceiveKind, c) + KindTotal(ts, PayKind, c) + KindTotal(ts, TransferKind, c)
       + KindTotal(ts, BuyKind, c) + KindTotal(ts, DeliveryKind, c)
  {
    assert KindsTotal(ts, 1, c) == KindTotal(ts, ReceiveKind, c);
    assert KindsTotal(ts, 2, c) == KindsTotal(ts, 1, c) + KindTotal(ts, PayKind, c);
    assert KindsTotal(ts, 3, c) == KindsTotal(ts, 2, c) + KindTotal(ts, TransferKind, c);
    assert KindsTotal(ts, 4, c) == KindsTotal(ts, 3, c) + KindTotal(ts, BuyKind, c);
  }

  /** A delivery has no currency, so its summary row stays at zero. */
  lemma {:induction false} DeliveryRowZero(ts: seq<Row>, c: Currency)
    ensures KindTotal(ts, DeliveryKind, c) == 0.0
  {
    if |ts| > 0 {
      DeliveryRowZero(ts[..|ts| - 1], c);
    }
  }

  // ------------------------------------------------------------- unique persons

  /** A name `getUniquePersons` collects from the row: a truthy `person`, `from` or `to`. */
  predicate NamedIn(tr: Transaction, x: string) {
    x != "" && (x == tr.PersonField() || x == tr.FromField() || x == tr.ToField())
  }

  predicate NamedInList(ts: seq<Row>, x: string) {
    exists i :: 0 <= i < |ts| && NamedIn(ts[i].tx, x)
  }
}
