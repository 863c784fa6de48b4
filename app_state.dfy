/** The application's state, kept by the top-level component and its screens: the
    transaction list, the person list, the buy screen's categories and the pay
    screen's pending pair. `nextId` hands out the identities of new objects.
    The loops of the screens (`forEach` over the list) are the read-only methods;
    the handlers that call `setTransactions`, `setPersons` and `setCategories` are
    the modifying ones. */
module Ledger {
  import opened JsValues
  import opened Transactions
  import opened Validation
  import opened Balances
  import opened Reports
  import opened Orders
  import Forms
  import opened Edits
  import opened Directory

  /** One more row adds its names to those `getUniquePersons` collects. */
  lemma NamedStep(ts: seq<Row>, j: nat)
    requires j < |ts|
    ensures forall x :: NamedInList(ts[..j + 1], x) <==> NamedInList(ts[..j], x) || NamedIn(ts[j].tx, x)
  {
    var pre, post := ts[..j], ts[..j + 1];
    forall x ensures NamedInList(post, x) <==> NamedInList(pre, x) || NamedIn(ts[j].tx, x) {
      if NamedInList(post, x) {
        var i :| 0 <= i < |post| && NamedIn(post[i].tx, x);
        if i < j { assert pre[i] == post[i]; }
      }
      if NamedInList(pre, x) {
        var i :| 0 <= i < |pre| && NamedIn(pre[i].tx, x);
        assert post[i] == pre[i];
      }
      if NamedIn(ts[j].tx, x) {
        assert post[j] == ts[j];
      }
    }
  }

  /** One more row adds its order number, if it is a JACK buy row. */
  lemma OrderSetStep(ts: seq<Row>, j: nat)
    requires j < |ts|
    ensures JackOrderSet(ts[..j + 1])
      == JackOrderSet(ts[..j]) + (if IsJackBuy(ts[j].tx) then {ts[j].tx.orderNumber} else {})
  {
    var pre, post := ts[..j], ts[..j + 1];
    forall x | x in JackOrderSet(post)
      ensures x in JackOrderSet(pre) + (if IsJackBuy(ts[j].tx) then {ts[j].tx.orderNumber} else {})
    {
      var i :| 0 <= i < |post| && IsJackBuy(post[i].tx) && post[i].tx.orderNumber == x;
      if i < j { assert pre[i] == post[i]; }
    }
    forall x | x in JackOrderSet(pre) ensures x in JackOrderSet(post) {
      var i :| 0 <= i < |pre| && IsJackBuy(pre[i].tx) && pre[i].tx.orderNumber == x;
      assert post[i] == pre[i];
    }
    if IsJackBuy(ts[j].tx) {
      assert post[j] == ts[j];
    }
  }

  /** One more row adds its delivery number, if it is a delivery that has one. */
  lemma DeliverySetStep(ts: seq<Row>, j: nat)
    requires j < |ts|
    ensures DeliveryNumberSet(ts[..j + 1])
      == DeliveryNumberSet(ts[..j])
         + (if ts[j].tx.Delivery? && ts[j].tx.deliveryNumber != "" then {ts[j].tx.deliveryNumber} else {})
  {
    var pre, post := ts[..j], ts[..j + 1];
    var extra := if ts[j].tx.Delivery? && ts[j].tx.deliveryNumber != "" then {ts[j].tx.deliveryNumber} else {};
    forall x | x in DeliveryNumberSet(post) ensures x in DeliveryNumberSet(pre) + extra {
      var i :| 0 <= i < |post| && post[i].tx.Delivery? && post[i].tx.deliveryNumber != ""
               && post[i].tx.deliveryNumber == x;
      if i < j { assert pre[i] == post[i]; }
    }
    forall x | x in DeliveryNumberSet(pre) ensures x in DeliveryNumberSet(post) {
      var i :| 0 <= i < |pre| && pre[i].tx.Delivery? && pre[i].tx.deliveryNumber != ""
               && pre[i].tx.deliveryNumber == x;
      assert post[i] == pre[i];
    }
    if ts[j].tx.Delivery? && ts[j].tx.deliveryNumber != "" {
      assert post[j] == ts[j];
    }
  }

  /** The sorted, duplicate-free array of a collected set, newest name first. */
  lemma DescendingOfDistinct(found: seq<string>)
    requires Distinct(found)
    ensures var r := SortDescending(found);
      SortedDescending(r) && Distinct(r) && forall x :: x in r <==> x in found
  {
    SortDescendingCorrect(found);
    var r := SortDescending(found);
    DistinctPermutation(found, r);
    forall x ensures x in r <==> x in found {
      assert x in r <==> x in multiset(r);
      assert x in found <==> x in multiset(found);
    }
  }

  /** `if (!balances[p]) balances[p] = { usd: 0, cny: 0, irr: 0 }` followed by
      `balances[p][c] += x`. */
  function Book(b: map<string, Totals>, p: string, c: Currency, x: real): (r: map<string, Totals>)
    ensures forall q :: q in r <==> q in b || q == p
    ensures forall q :: q in b && q != p ==> r[q] == b[q]
    ensures forall d :: r[p].Get(d) == (if p in b then b[p].Get(d) else 0.0) + (if d == c then x else 0.0)
  {
    var t := if p in b then b[p] else ZeroTotals;
    b[p := t.Add(c, x)]
  }

  /** One more row adds to the volumes only when `calculateAverageUsdRate` counts it. */
  lemma VolumeStep(ts: seq<Row>, j: nat)
    requires j < |ts|
    ensures var tr := ts[j].tx;
      && UsdVolume(ts[..j + 1]) == UsdVolume(ts[..j]) + (if RateCounts(tr) then tr.amount else 0.0)
      && IrrVolume(ts[..j + 1]) == IrrVolume(ts[..j]) + (if RateCounts(tr) then tr.amount * tr.rate.value else 0.0)
  {
    assert ts[..j + 1][..j] == ts[..j];
  }

  /** The summary map holds, for every type and currency, the cell of `ts`. */
  ghost predicate CellsAgree(summary: map<Kind, Totals>, ts: seq<Row>) {
    && (forall k :: k in summary)
    && (forall k, c :: summary[k].Get(c) == KindTotal(ts, k, c))
  }

  /** Adding row `j`'s summary amount to its type and currency cell follows the row. */
  lemma CellStep(summary: map<Kind, Totals>, ts: seq<Row>, j: nat)
    requires j < |ts| && CellsAgree(summary, ts[..j]) && ts[j].tx.CurrencyField().Some?
    ensures var tr := ts[j].tx;
      CellsAgree(summary[tr.TypeOf() := summary[tr.TypeOf()].Add(tr.CurrencyField().value, SummaryAmount(tr))],
                 ts[..j + 1])
  {
    assert ts[..j + 1][..j] == ts[..j];
  }

  /** A delivery row, which has no currency, leaves every cell as it is. */
  lemma NoCellStep(summary: map<Kind, Totals>, ts: seq<Row>, j: nat)
    requires j < |ts| && CellsAgree(summary, ts[..j]) && ts[j].tx.CurrencyField().None?
    ensures CellsAgree(summary, ts[..j + 1])
  {
    assert ts[..j + 1][..j] == ts[..j];
  }

  /** The balances map agrees with the ledger `ts`: it has an entry for every
      listed and every mentioned person, holding the net totals, and nobody
      without an entry has a balance. */
  ghost predicate Agrees(b: map<string, Totals>, persons: seq<string>, ts: seq<Row>) {
    && (forall p :: p in b <==> p in persons || MentionedIn(ts, p))
    && (forall p, c :: p in b ==> b[p].Get(c) == Net(ts, p, c))
    && (forall p, c :: p !in b ==> Net(ts, p, c) == 0.0)
  }

  /** A receive, pay or buy row with a person moves that person's balance in the
      row's currency by `x`: the amount, taken away unless it is a receive. */
  predicate SingleParty(tr: Transaction, x: real) {
    (tr.Receive? || tr.Pay? || tr.Buy?) && tr.person != ""
    && x == (if tr.Receive? then tr.amount else -tr.amount)
  }

  /** A map that opens an entry for everyone row `j` opens and adds the row's
      effect to every entry agrees with the ledger one row longer. */
  lemma AgreesStep(b: map<string, Totals>, r: map<string, Totals>, persons: seq<string>, ts: seq<Row>, j: nat)
    requires j < |ts| && Agrees(b, persons, ts[..j])
    requires forall q :: q in r <==> q in b || Opens(ts[j].tx, q)
    requires forall q, d :: q in r ==>
      r[q].Get(d) == (if q in b then b[q].Get(d) else 0.0) + Effect(ts[j].tx, q, d)
    ensures Agrees(r, persons, ts[..j + 1])
  {
    var tr, post := ts[j].tx, ts[..j + 1];
    MentionedStep(ts, j);
    forall q, d ensures q in r ==> r[q].Get(d) == Net(post, q, d) {
      NetStepAt(ts, j, q, d);
    }
    forall q, d ensures q !in r ==> Net(post, q, d) == 0.0 {
      NetStepAt(ts, j, q, d);
      if q !in r {
        EffectOnlyOnOpened(tr, q, d);
      }
    }
  }

  /** Booking `x` for the person of row `j` follows that row. */
  lemma BookStep(b: map<string, Totals>, persons: seq<string>, ts: seq<Row>, j: nat, x: real)
    requires j < |ts| && Agrees(b, persons, ts[..j]) && SingleParty(ts[j].tx, x)
    ensures Agrees(Book(b, ts[j].tx.person, ts[j].tx.currency, x), persons, ts[..j + 1])
  {
    var tr := ts[j].tx;
    var r := Book(b, tr.person, tr.currency, x);
    forall q ensures q in r <==> q in b || Opens(tr, q) {
      assert Opens(tr, q) <==> q == tr.person;
    }
    forall q, d | q in r
      ensures r[q].Get(d) == (if q in b then b[q].Get(d) else 0.0) + Effect(tr, q, d)
    {
      assert Effect(tr, q, d) == (if q == tr.person && d == tr.currency then x else 0.0);
    }
    AgreesStep(b, r, persons, ts, j);
  }

  /** Booking a debit for `from` and then a credit for `to` of a transfer opens
      both ends and adds the transfer's effect to every entry. */
  lemma TransferBooks(b: map<string, Totals>, tr: Transaction)
    requires tr.Transfer? && tr.from != "" && tr.to != ""
    ensures var r := Book(Book(b, tr.from, tr.currency, -tr.amount), tr.to, tr.currency, tr.amount);
      && (forall q :: q in r <==> q in b || Opens(tr, q))
      && (forall q, d :: q in r ==> r[q].Get(d) == (if q in b then b[q].Get(d) else 0.0) + Effect(tr, q, d))
  {
    var m := Book(b, tr.from, tr.currency, -tr.amount);
    var r := Book(m, tr.to, tr.currency, tr.amount);
    forall q ensures q in r <==> q in b || Opens(tr, q) {
      assert Opens(tr, q) <==> q == tr.from || q == tr.to;
    }
    forall q, d | q in r
      ensures r[q].Get(d) == (if q in b then b[q].Get(d) else 0.0) + Effect(tr, q, d)
    {
      TransferEffect(tr, q, d);
      assert (if q in m then m[q].Get(d) else 0.0)
        == (if q in b then b[q].Get(d) else 0.0) + (if q == tr.from && d == tr.currency then -tr.amount else 0.0)
        by { if q != tr.from && q in b { assert m[q] == b[q]; } }
      if q != tr.to { assert r[q] == m[q]; }
    }
  }

  /** Booking a debit for `from` and then a credit for `to` follows transfer row `j`. */
  lemma TransferBookStep(b: map<string, Totals>, persons: seq<string>, ts: seq<Row>, j: nat)
    requires j < |ts| && Agrees(b, persons, ts[..j])
    requires ts[j].tx.Transfer? && ts[j].tx.from != "" && ts[j].tx.to != ""
    ensures var tr := ts[j].tx;
      Agrees(Book(Book(b, tr.from, tr.currency, -tr.amount), tr.to, tr.currency, tr.amount), persons, ts[..j + 1])
  {
    var tr := ts[j].tx;
    TransferBooks(b, tr);
    AgreesStep(b, Book(Book(b, tr.from, tr.currency, -tr.amount), tr.to, tr.currency, tr.amount), persons, ts, j);
  }

  /** A row that opens nobody leaves the map as it is. */
  lemma NoBookStep(b: map<string, Totals>, persons: seq<string>, ts: seq<Row>, j: nat)
    requires j < |ts| && Agrees(b, persons, ts[..j])
    requires forall q :: !Opens(ts[j].tx, q)
    ensures Agrees(b, persons, ts[..j + 1])
  {
    forall q, d | q in b ensures b[q].Get(d) == b[q].Get(d) + Effect(ts[j].tx, q, d) {
      EffectOnlyOnOpened(ts[j].tx, q, d);
    }
    AgreesStep(b, b, persons, ts, j);
  }

  /** What the dashboard loop does to the map for one row. */
  function RowBooking(b: map<string, Totals>, tr: Transaction): map<string, Totals> {
    if tr.Receive? && tr.person != "" then Book(b, tr.person, tr.currency, tr.amount)
    else if (tr.Pay? || tr.Buy?) && tr.person != "" then Book(b, tr.person, tr.currency, -tr.amount)
    else if tr.Transfer? && tr.from != "" && tr.to != "" then
      Book(Book(b, tr.from, tr.currency, -tr.amount), tr.to, tr.currency, tr.amount)
    else b
  }

  /** The dashboard loop's step keeps the map in agreement with the rows read so far. */
  lemma RowBookingStep(b: map<string, Totals>, persons: seq<string>, ts: seq<Row>, j: nat)
    requires j < |ts| && Agrees(b, persons, ts[..j])
    ensures Agrees(RowBooking(b, ts[j].tx), persons, ts[..j + 1])
  {
    var tr := ts[j].tx;
    if tr.Receive? && tr.person != "" {
      BookStep(b, persons, ts, j, tr.amount);
    } else if (tr.Pay? || tr.Buy?) && tr.person != "" {
      BookStep(b, persons, ts, j, -tr.amount);
    } else if tr.Transfer? && tr.from != "" && tr.to != "" {
      TransferBookStep(b, persons, ts, j);
    } else {
      NoBookStep(b, persons, ts, j);
    }
  }

  /** `[...newTransactions]` as new objects, numbered from `first`. */
  function Numbered(txs: seq<Transaction>, first: nat): (r: seq<Row>)
    ensures |r| == |txs|
    ensures forall k :: 0 <= k < |r| ==> r[k] == Row(first + k, txs[k])
  {
    if |txs| == 0 then [] else [Row(first, txs[0])] + Numbered(txs[1..], first + 1)
  }

  /** New objects, numbered from an identity above every old one, keep the
      identities distinct. */
  lemma AppendKeepsIds(ts: seq<Row>, next: nat, txs: seq<Transaction>)
    requires DistinctIds(ts) && forall k :: 0 <= k < |ts| ==> ts[k].id < next
    ensures var r := ts + Numbered(txs, next);
      DistinctIds(r) && forall k :: 0 <= k < |r| ==> r[k].id < next + |txs|
  {
    var added := Numbered(txs, next);
    var r := ts + added;
    forall k | 0 <= k < |r| ensures r[k].id < next + |txs| {
      if k >= |ts| { assert r[k] == added[k - |ts|]; }
    }
    forall i, j | 0 <= i < j < |r| ensures r[i].id != r[j].id {
      if j >= |ts| {
        assert r[j] == added[j - |ts|];
        if i >= |ts| { assert r[i] == added[i - |ts|]; }
      }
    }
  }

  /** A list that lost rows keeps its identities below the bound. */
  lemma SubListBelow(r: seq<Row>, ts: seq<Row>, next: nat)
    requires multiset(r) <= multiset(ts) && forall k :: 0 <= k < |ts| ==> ts[k].id < next
    ensures forall k :: 0 <= k < |r| ==> r[k].id < next
  {
    forall k | 0 <= k < |r| ensures r[k].id < next {
      assert r[k] in multiset(ts);
    }
  }

  class AppState {
    var transactions: seq<Row>
    var persons: seq<string>
    var categories: seq<Category>
    /** The pay screen's `pendingTransaction`; empty is `null`. */
    var pending: seq<Transaction>
    var nextId: nat

    /** Every row is its own object, with an identity handed out before; persons
        and categories are as their forms keep them. */
    ghost predicate Valid()
      reads this
    {
      && DistinctIds(transactions)
      && (forall k :: 0 <= k < |transactions| ==> transactions[k].id < nextId)
      && WellFormedNames(persons)
      && DistinctValues(categories)
    }

    constructor ()
      ensures transactions == [] && persons == DefaultPersons && categories == DefaultCategories
      ensures pending == [] && nextId == 0
      ensures Valid()
    {
      transactions := [];
      persons := DefaultPersons;
      categories := DefaultCategories;
      pending := [];
      nextId := 0;
      DefaultPersonsWellFormed();
    }

    // ---------------------------------------------------------------- reading

    /** The dashboard's `balances`: an entry for every person of the list and for
        everybody a row opens, holding that person's net total per currency. */
    method DashboardBalances() returns (b: map<string, Totals>)
      ensures forall p :: p in b <==> p in persons || MentionedIn(transactions, p)
      ensures forall p, c :: p in b ==> b[p].Get(c) == Net(transactions, p, c)
    {
      b := map[];
      var i := 0;
      while i < |persons|
        invariant 0 <= i <= |persons|
        invariant forall p :: p in b <==> p in persons[..i]
        invariant forall p, c :: p in b ==> b[p].Get(c) == 0.0
      {
        b := b[persons[i] := ZeroTotals];
        assert persons[..i + 1] == persons[..i] + [persons[i]];
        i := i + 1;
      }
      assert persons[..i] == persons;
      var ts := transactions;
      var j := 0;
      while j < |ts|
        invariant 0 <= j <= |ts|
        invariant Agrees(b, persons, ts[..j])
      {
        var tr := ts[j].tx;
        RowBookingStep(b, persons, ts, j);
        b := RowBooking(b, tr);
        j := j + 1;
      }
      assert ts[..j] == ts;
    }

    /** `calculateSenderBalance(person, currency)` of the transfer screen; the pay
        screen's is this with usd. */
    method SenderBalance(p: string, c: Currency) returns (balance: Number)
      ensures balance == SenderBalanceOf(transactions, p, c)
    {
      var ts := transactions;
      balance := Num(0.0);
      var j := 0;
      while j < |ts|
        invariant 0 <= j <= |ts|
        invariant balance == SenderBalanceOf(ts[..j], p, c)
      {
        assert ts[..j + 1][..j] == ts[..j];
        var tr := ts[j].tx;
        if tr.Receive? && tr.person == p && tr.currency == c {
          balance := Add(balance, Num(tr.amount));
        } else if tr.Pay? && tr.person == p && tr.currency == c {
          balance := Sub(balance, Num(tr.amount));
        } else if tr.Buy? && tr.person == p && tr.currency == c {
          balance := Sub(balance, ToNumber(tr.quantity));
        } else if tr.Transfer? {
          if tr.from == p && tr.currency == c {
            balance := Sub(balance, Num(tr.amount));
          } else if tr.to == p && tr.currency == c {
            balance := Add(balance, Num(tr.amount));
          }
        }
        j := j + 1;
      }
      assert ts[..j] == ts;
    }

    /** `calculateJackBalance()`: the buy screen's JACK balance in cny. */
    method JackBalance() returns (balance: real)
      ensures balance == JackBalanceOf(transactions)
    {
      var ts := transactions;
      balance := 0.0;
      var j := 0;
      while j < |ts|
        invariant 0 <= j <= |ts|
        invariant balance == LedgerBalance(ts[..j], Jack, Cny)
      {
        assert ts[..j + 1][..j] == ts[..j];
        var tr := ts[j].tx;
        if tr.Receive? && tr.person == Jack && tr.currency == Cny {
          balance := balance + tr.amount;
        } else if tr.Pay? && tr.person == Jack && tr.currency == Cny {
          balance := balance - tr.amount;
        } else if tr.Buy? && tr.person == Jack && tr.currency == Cny {
          balance := balance - tr.amount;
        } else if tr.Transfer? {
          if tr.from == Jack && tr.currency == Cny {
            balance := balance - tr.amount;
          } else if tr.to == Jack && tr.currency == Cny {
            balance := balance + tr.amount;
          }
        }
        j := j + 1;
      }
      assert ts[..j] == ts;
    }

    /** `calculateAverageUsdRate()`: the irr worth of the usd receipts that carry a
        rate, per usd; 0 when there are none. */
    method AverageUsdRate() returns (average: real)
      ensures UsdVolume(transactions) == 0.0 ==> average == 0.0
      ensures UsdVolume(transactions) != 0.0 ==> average == IrrVolume(transactions) / UsdVolume(transactions)
    {
      var ts := transactions;
      var usd, irr := 0.0, 0.0;
      var j := 0;
      while j < |ts|
        invariant 0 <= j <= |ts|
        invariant usd == UsdVolume(ts[..j]) && irr == IrrVolume(ts[..j])
      {
        VolumeStep(ts, j);
        var tr := ts[j].tx;
        if tr.Receive? && tr.currency == Usd && Truthy(tr.rate) {
          usd := usd + tr.amount;
          irr := irr + tr.amount * tr.rate.value;
        }
        j := j + 1;
      }
      assert ts[..j] == ts;
      if usd == 0.0 {
        average := 0.0;
      } else {
        average := irr / usd;
      }
    }

    /** `calculateSummary()` and the totals row of the reports screen, over the
        filtered view: one cell per type and currency, and per currency the sum of
        the five type rows. */
    method Summary(c: Criteria) returns (summary: map<Kind, Totals>, totals: Totals)
      ensures forall k :: k in summary
      ensures forall k, cur :: summary[k].Get(cur) == KindTotal(FilteredTransactions(transactions, c), k, cur)
      ensures forall cur :: totals.Get(cur) == CurrencyTotal(FilteredTransactions(transactions, c), cur)
    {
      var view := FilteredTransactions(transactions, c);
      summary := map[ReceiveKind := ZeroTotals, PayKind := ZeroTotals, TransferKind := ZeroTotals,
                     BuyKind := ZeroTotals, DeliveryKind := ZeroTotals];
      forall k: Kind ensures k in summary {
        match k
        case ReceiveKind =>
        case PayKind =>
        case TransferKind =>
        case BuyKind =>
        case DeliveryKind =>
      }
      assert view[..0] == [];
      var j := 0;
      while j < |view|
        invariant 0 <= j <= |view|
        invariant CellsAgree(summary, view[..j])
      {
        var tr := view[j].tx;
        var amount := SummaryAmount(tr);
        if tr.CurrencyField().Some? {
          CellStep(summary, view, j);
          var k := tr.TypeOf();
          summary := summary[k := summary[k].Add(tr.CurrencyField().value, amount)];
        } else {
          NoCellStep(summary, view, j);
        }
        j := j + 1;
      }
      assert view[..j] == view;
      totals := ZeroTotals;
      var m := 0;
      while m < |AllKinds|
        invariant 0 <= m <= |AllKinds|
        invariant forall cur :: totals.Get(cur) == KindsTotal(view, m, cur)
      {
        var row := summary[AllKinds[m]];
        totals := totals.Plus(row);
        m := m + 1;
      }
      forall cur ensures totals.Get(cur) == CurrencyTotal(view, cur) {
        TotalsAreCurrencyTotals(view, cur);
      }
    }

    /** `getUniquePersons()`: every truthy `person`, `from` and `to` of the list,
        each once, in ascending order. */
    method UniquePersons() returns (names: seq<string>)
      ensures SortedAscending(names) && Distinct(names)
      ensures forall x :: x in names <==> NamedInList(transactions, x)
    {
      var ts := transactions;
      var found: seq<string> := [];
      var j := 0;
      while j < |ts|
        invariant 0 <= j <= |ts|
        invariant Distinct(found)
        invariant forall x :: x in found <==> NamedInList(ts[..j], x)
      {
        NamedStep(ts, j);
        var tr := ts[j].tx;
        if tr.PersonField() != "" && tr.PersonField() !in found {
          DistinctSnoc(found, tr.PersonField());
          found := found + [tr.PersonField()];
        }
        if tr.FromField() != "" && tr.FromField() !in found {
          DistinctSnoc(found, tr.FromField());
          found := found + [tr.FromField()];
        }
        if tr.ToField() != "" && tr.ToField() !in found {
          DistinctSnoc(found, tr.ToField());
          found := found + [tr.ToField()];
        }
        j := j + 1;
      }
      assert ts[..j] == ts;
      names := SortAscending(found);
      SortAscendingSorted(found);
      DistinctPermutation(found, names);
      forall x ensures x in names <==> x in found {
        assert x in names <==> x in multiset(names);
        assert x in found <==> x in multiset(found);
      }
    }

    /** `getOrderNumbers()`: JACK's order numbers, each once, in descending order. */
    method OrderNumbers() returns (orders: seq<string>)
      ensures SortedDescending(orders) && Distinct(orders)
      ensures forall x :: x in orders <==> x in JackOrderSet(transactions)
    {
      var ts := transactions;
      var found: seq<string> := [];
      var j := 0;
      while j < |ts|
        invariant 0 <= j <= |ts|
        invariant Distinct(found)
        invariant forall x :: x in found <==> x in JackOrderSet(ts[..j])
      {
        OrderSetStep(ts, j);
        var tr := ts[j].tx;
        if tr.Buy? && tr.person == Jack && tr.orderNumber !in found {
          DistinctSnoc(found, tr.orderNumber);
          found := found + [tr.orderNumber];
        }
        j := j + 1;
      }
      assert ts[..j] == ts;
      orders := SortDescending(found);
      DescendingOfDistinct(found);
    }

    /** `getDeliveryNumbers()`: the truthy delivery numbers, each once, in
        descending order. */
    method DeliveryNumbers() returns (numbers: seq<string>)
      ensures SortedDescending(numbers) && Distinct(numbers)
      ensures forall x :: x in numbers <==> x in DeliveryNumberSet(transactions)
    {
      var ts := transactions;
      var found: seq<string> := [];
      var j := 0;
      while j < |ts|
        invariant 0 <= j <= |ts|
        invariant Distinct(found)
        invariant forall x :: x in found <==> x in DeliveryNumberSet(ts[..j])
      {
        DeliverySetStep(ts, j);
        var tr := ts[j].tx;
        if tr.Delivery? && tr.deliveryNumber != "" && tr.deliveryNumber !in found {
          DistinctSnoc(found, tr.deliveryNumber);
          found := found + [tr.deliveryNumber];
        }
        j := j + 1;
      }
      assert ts[..j] == ts;
      numbers := SortDescending(found);
      DescendingOfDistinct(found);
    }

    // --------------------------------------------------------------- changing

    /** `setTransactions([...transactions, ...txs])`: the records become new
        objects at the end of the list. */
    method Append(txs: seq<Transaction>)
      requires Valid()
      modifies this
      ensures transactions == old(transactions) + Numbered(txs, old(nextId))
      ensures nextId == old(nextId) + |txs|
      ensures persons == old(persons) && categories == old(categories) && pending == old(pending)
      ensures Valid()
    {
      AppendKeepsIds(transactions, nextId, txs);
      transactions := transactions + Numbered(txs, nextId);
      nextId := nextId + |txs|;
    }

    /** The receive screen's submit: the accepted record is appended. */
    method SubmitReceive(user: string, now: int, person: string, amountText: string,
                         currency: Currency, rateText: string) returns (outcome: Forms.ReceiveOutcome)
      requires Valid()
      modifies this
      ensures Valid()
      ensures outcome == Forms.SubmitReceive(user, now, person, amountText, currency, rateText)
      ensures outcome.ReceiveAccepted? ==> transactions == old(transactions) + [Row(old(nextId), outcome.record)]
      ensures outcome.ReceiveRejected? ==> transactions == old(transactions)
      ensures nextId == old(nextId) + (if outcome.ReceiveAccepted? then 1 else 0)
      ensures persons == old(persons) && categories == old(categories) && pending == old(pending)
    {
      outcome := Forms.SubmitReceive(user, now, person, amountText, currency, rateText);
      if outcome.ReceiveAccepted? {
        var tr := outcome.record;
        Forms.ReceiveRecordValid(user, now, person, amountText, currency, rateText);
        if ValidateTransaction(Some(tr)) && HandleTransaction(Some(tr), Added) {
          Append([tr]);
          assert Numbered([tr], old(nextId)) == [Row(old(nextId), tr)];
        }
      }
    }

    /** The pay screen's submit: an accepted pair is appended; a pair the sender
        cannot cover waits in `pending` for the confirmation, and would then pass
        the confirmation's checks. */
    method SubmitPay(user: string, now: int, sender: string, receiver: string,
                     amount: Field, rate: Field) returns (outcome: Forms.PayOutcome)
      requires Valid()
      modifies this
      ensures Valid()
      ensures outcome == Forms.SubmitPay(old(transactions), user, now, sender, receiver, amount, rate)
      ensures outcome.PayAccepted? ==>
        transactions == old(transactions) + Numbered(outcome.records, old(nextId)) && pending == old(pending)
      ensures outcome.PayPending? ==>
        && transactions == old(transactions) && pending == outcome.pending
        && forall k :: 0 <= k < |pending| ==> ValidateTransaction(Some(pending[k])) && HandleTransaction(Some(pending[k]), Added)
      ensures outcome.PayRejected? ==> transactions == old(transactions) && pending == old(pending)
      ensures nextId == old(nextId) + (if outcome.PayAccepted? then |outcome.records| else 0)
      ensures persons == old(persons) && categories == old(categories)
    {
      outcome := Forms.SubmitPay(transactions, user, now, sender, receiver, amount, rate);
      if outcome.PayPending? {
        Forms.PayPairValid(transactions, user, now, sender, receiver, amount, rate);
        pending := outcome.pending;
      } else if outcome.PayAccepted? {
        var pair := outcome.records;
        Forms.PayPairValid(transactions, user, now, sender, receiver, amount, rate);
        if (forall k :: 0 <= k < |pair| ==> ValidateTransaction(Some(pair[k])))
           && (forall k :: 0 <= k < |pair| ==> HandleTransaction(Some(pair[k]), Added)) {
          Append(pair);
        }
      }
    }

    /** `handleConfirmNegativeBalance`: the pending pair is appended when each
        record passes the checks; the pending pair is cleared either way. */
    method ConfirmNegativeBalance()
      requires Valid()
      modifies this
      ensures Valid()
      ensures pending == []
      ensures var ok := old(pending) != []
        && (forall k :: 0 <= k < |old(pending)| ==> ValidateTransaction(Some(old(pending)[k])))
        && (forall k :: 0 <= k < |old(pending)| ==> HandleTransaction(Some(old(pending)[k]), Added));
        && (ok ==> transactions == old(transactions) + Numbered(old(pending), old(nextId)))
        && (!ok ==> transactions == old(transactions))
        && nextId == old(nextId) + (if ok then |old(pending)| else 0)
      ensures persons == old(persons) && categories == old(categories)
    {
      var pair := pending;
      if pair != [] {
        if (forall k :: 0 <= k < |pair| ==> ValidateTransaction(Some(pair[k])))
           && (forall k :: 0 <= k < |pair| ==> HandleTransaction(Some(pair[k]), Added)) {
          Append(pair);
        }
      }
      pending := [];
    }

    /** The transfer screen's submit, with the balance guard every other screen
        computes: an accepted transfer is appended and leaves the sender at or
        above zero. */
    method SubmitTransfer(user: string, now: int, from: string, to: string, amount: Field, c: Currency)
      returns (outcome: Forms.TransferOutcome)
      requires Valid()
      modifies this
      ensures Valid()
      ensures outcome == Forms.SubmitTransfer(old(transactions), user, now, from, to, amount, c)
      ensures outcome.TransferAccepted? ==>
        && transactions == old(transactions) + [Row(old(nextId), outcome.record)]
        && LedgerBalance(transactions, from, c) >= 0.0
      ensures outcome.TransferRejected? ==> transactions == old(transactions)
      ensures nextId == old(nextId) + (if outcome.TransferAccepted? then 1 else 0)
      ensures persons == old(persons) && categories == old(categories) && pending == old(pending)
    {
      outcome := Forms.SubmitTransfer(transactions, user, now, from, to, amount, c);
      if outcome.TransferAccepted? {
        Forms.TransferKeepsSenderSolvent(transactions, user, now, from, to, amount, c, nextId);
        var tr := outcome.record;
        Append([tr]);
        assert Numbered([tr], old(nextId)) == [Row(old(nextId), tr)];
      }
    }

    /** The buy screen's `handleAddTransaction`: the accepted item is appended, and
        its order's total grows by its amount. */
    method AddBuyItem(user: string, now: int, selectedOrder: string, amount: Field,
                      description: string, category: string, status: string) returns (outcome: Forms.BuyOutcome)
      requires Valid()
      modifies this
      ensures Valid()
      ensures outcome == Forms.AddBuyItem(user, now, selectedOrder, amount, description, category, status)
      ensures outcome.BuyAccepted? ==>
        && transactions == old(transactions) + [Row(old(nextId), outcome.record)]
        && GetOrderDetails(transactions, selectedOrder).totalAmount
           == GetOrderDetails(old(transactions), selectedOrder).totalAmount + outcome.record.amount
      ensures outcome.BuyRejected? ==> transactions == old(transactions)
      ensures nextId == old(nextId) + (if outcome.BuyAccepted? then 1 else 0)
      ensures persons == old(persons) && categories == old(categories) && pending == old(pending)
    {
      outcome := Forms.AddBuyItem(user, now, selectedOrder, amount, description, category, status);
      if outcome.BuyAccepted? {
        var tr := outcome.record;
        AddItemToOrder(transactions, selectedOrder, Row(nextId, tr));
        Append([tr]);
        assert Numbered([tr], old(nextId)) == [Row(old(nextId), tr)];
      }
    }

    /** The buy screen's `handleUpdateTransaction` for the row object `editing`,
        which the edit began from: that row takes the edited amount, description,
        category and status; no order changes its rows. */
    method UpdateBuyItem(editing: Option<nat>, amount: real, description: string, category: string, status: string)
      requires Valid()
      modifies this
      ensures Valid()
      ensures editing.None? ==> transactions == old(transactions)
      ensures editing.Some? ==>
        transactions == UpdateBuyRows(old(transactions), editing.value, amount, description, category, status)
      ensures JackOrderSet(transactions) == JackOrderSet(old(transactions))
      ensures persons == old(persons) && categories == old(categories) && pending == old(pending)
      ensures nextId == old(nextId)
    {
      if editing.Some? {
        var ts := transactions;
        var r := UpdateBuyRows(ts, editing.value, amount, description, category, status);
        UpdateBuyKeepsOrders(ts, editing.value, amount, description, category, status);
        assert DistinctIds(r) by {
          forall i, j | 0 <= i < j < |r| ensures r[i].id != r[j].id {
            assert r[i].id == ts[i].id && r[j].id == ts[j].id;
          }
        }
        transactions := r;
        forall x | x in JackOrderSet(r) ensures x in JackOrderSet(ts) {
          var i :| 0 <= i < |r| && IsJackBuy(r[i].tx) && r[i].tx.orderNumber == x;
          assert r[i].tx.OrderNumberField() == ts[i].tx.OrderNumberField();
        }
        forall x | x in JackOrderSet(ts) ensures x in JackOrderSet(r) {
          var i :| 0 <= i < |ts| && IsJackBuy(ts[i].tx) && ts[i].tx.orderNumber == x;
          assert r[i].tx.OrderNumberField() == ts[i].tx.OrderNumberField();
        }
      }
    }

    /** `transactions.filter(tr => tr !== x)`, the delete of the buy screen and of
        the delivery screen: every other object stays, in its order. */
    method DeleteRowObject(target: Option<nat>)
      requires Valid()
      modifies this
      ensures Valid()
      ensures target.None? ==> transactions == old(transactions)
      ensures target.Some? ==> transactions == RemoveRow(old(transactions), target.value)
      ensures forall k :: 0 <= k < |transactions| ==> target != Some(transactions[k].id)
      ensures persons == old(persons) && categories == old(categories) && pending == old(pending)
      ensures nextId == old(nextId)
    {
      if target.Some? {
        var r := RemoveRow(transactions, target.value);
        RemoveRowKeepsDistinct(transactions, target.value);
        SubListBelow(r, transactions, nextId);
        transactions := r;
      }
    }

    /** The delivery screen's `handleSubmit`: an accepted package is appended. */
    method SubmitDelivery(user: string, now: int, deliveryNumber: string, boxCount: Field, weight: Field,
                          receiptNumber: string, description: string) returns (outcome: Forms.DeliveryOutcome)
      requires Valid()
      modifies this
      ensures Valid()
      ensures outcome == Forms.SubmitDelivery(user, now, deliveryNumber, boxCount, weight, receiptNumber, description)
      ensures outcome.DeliveryAccepted? ==>
        && transactions == old(transactions) + [Row(old(nextId), outcome.record)]
        && deliveryNumber in DeliveryNumberSet(transactions)
      ensures outcome.DeliveryRejected? ==> transactions == old(transactions)
      ensures nextId == old(nextId) + (if outcome.DeliveryAccepted? then 1 else 0)
      ensures persons == old(persons) && categories == old(categories) && pending == old(pending)
    {
      outcome := Forms.SubmitDelivery(user, now, deliveryNumber, boxCount, weight, receiptNumber, description);
      if outcome.DeliveryAccepted? {
        var tr := outcome.record;
        Append([tr]);
        assert Numbered([tr], old(nextId)) == [Row(old(nextId), tr)];
        assert transactions[|transactions| - 1].tx == tr;
      }
    }

    /** The delivery screen's `handleUpdate` for the package object `editing`: the
        package takes the form's fields in its own place. */
    method UpdateDelivery(editing: Option<Row>, deliveryNumber: string, boxCount: Field, weight: Field,
                          receiptNumber: string, description: string) returns (outcome: Option<Forms.DeliveryOutcome>)
      requires Valid()
      requires editing.Some? ==> editing.value.tx.Delivery?
      modifies this
      ensures Valid()
      ensures outcome.None? <==> editing.None?
      ensures outcome.Some? ==> outcome.value == Forms.UpdateDelivery(editing.value.tx, deliveryNumber, boxCount,
                                                                      weight, receiptNumber, description)
      ensures outcome.Some? && outcome.value.DeliveryAccepted? ==>
        transactions == ReplaceRow(old(transactions), editing.value.id, outcome.value.record)
      ensures !(outcome.Some? && outcome.value.DeliveryAccepted?) ==> transactions == old(transactions)
      ensures persons == old(persons) && categories == old(categories) && pending == old(pending)
      ensures nextId == old(nextId)
    {
      if editing.None? {
        return None;
      }
      var o := Forms.UpdateDelivery(editing.value.tx, deliveryNumber, boxCount, weight, receiptNumber, description);
      outcome := Some(o);
      if o.DeliveryAccepted? {
        ReplaceKeeps(editing.value.id, o.record);
      }
    }

    /** Writes `tx` into the object `id`, keeping `Valid()`. */
    method ReplaceKeeps(id: nat, tx: Transaction)
      requires Valid()
      modifies this
      ensures Valid()
      ensures transactions == ReplaceRow(old(transactions), id, tx)
      ensures persons == old(persons) && categories == old(categories) && pending == old(pending)
      ensures nextId == old(nextId)
    {
      var ts := transactions;
      var r := ReplaceRow(ts, id, tx);
      assert DistinctIds(r) by {
        forall i, j | 0 <= i < j < |r| ensures r[i].id != r[j].id {
          assert r[i].id == ts[i].id && r[j].id == ts[j].id;
        }
      }
      transactions := r;
    }

    /** The reports screen's delete of the row shown at `idx` of view `c`: the
        row the user clicked is removed and nothing else. */
    method ReportsDelete(c: Criteria, idx: nat) returns (deleted: bool)
      requires Valid()
      modifies this
      ensures Valid()
      ensures deleted <==> idx < |FilteredTransactions(old(transactions), c)|
      ensures deleted ==>
        exists i :: 0 <= i < |old(transactions)|
          && old(transactions)[i] == FilteredTransactions(old(transactions), c)[idx]
          && transactions == RemoveAt(old(transactions), i)
      ensures !deleted ==> transactions == old(transactions)
      ensures persons == old(persons) && categories == old(categories) && pending == old(pending)
      ensures nextId == old(nextId)
    {
      var ts := transactions;
      var r := Edits.ReportsDelete(ts, c, idx);
      deleted := r.Some?;
      if r.Some? {
        ReportsDeleteRemovesShownRow(ts, c, idx);
        var view := FilteredTransactions(ts, c);
        DeleteRowObject(Some(view[idx].id));
      }
    }

    /** The reports screen's save of the edit of the row shown at `idx` of view
        `c`: a record the buy-aware validator accepts replaces that row in place. */
    method ReportsSaveEdit(c: Criteria, idx: nat, edited: Transaction) returns (saved: bool)
      requires Valid()
      modifies this
      ensures Valid()
      ensures saved <==> idx < |FilteredTransactions(old(transactions), c)| && ValidateEdit(edited)
      ensures saved ==>
        exists i :: 0 <= i < |old(transactions)|
          && old(transactions)[i] == FilteredTransactions(old(transactions), c)[idx]
          && transactions == old(transactions)[i := Row(old(transactions)[i].id, edited)]
      ensures !saved ==> transactions == old(transactions)
      ensures persons == old(persons) && categories == old(categories) && pending == old(pending)
      ensures nextId == old(nextId)
    {
      var ts := transactions;
      var r := Edits.ReportsSaveEdit(ts, c, idx, edited);
      saved := r.Some?;
      if r.Some? {
        ReportsSaveEditReplacesShownRow(ts, c, idx, edited);
        var view := FilteredTransactions(ts, c);
        ReplaceKeeps(view[idx].id, edited);
      }
    }

    /** The persons screen's add. */
    method AddPerson(input: string) returns (outcome: Outcome<string>)
      requires Valid()
      modifies this
      ensures Valid()
      ensures outcome == Directory.AddPerson(old(persons), input)
      ensures outcome.Done? ==> persons == old(persons) + [Trim(input)]
      ensures !outcome.Done? ==> persons == old(persons)
      ensures transactions == old(transactions) && categories == old(categories) && pending == old(pending)
      ensures nextId == old(nextId)
    {
      outcome := Directory.AddPerson(persons, input);
      if outcome.Done? {
        AddPersonKeepsNames(persons, input);
        persons := outcome.list;
      }
    }

    /** The persons screen's delete: refused while a row names `p` as its person. */
    method DeletePerson(p: string) returns (outcome: Outcome<string>)
      requires Valid()
      modifies this
      ensures Valid()
      ensures outcome == Directory.DeletePerson(old(persons), transactions, p)
      ensures outcome.Done? <==> !exists i :: 0 <= i < |transactions| && HasPerson(transactions[i].tx, p)
      ensures outcome.Done? ==> forall x :: x in persons <==> x in old(persons) && x != p
      ensures !outcome.Done? ==> persons == old(persons)
      ensures transactions == old(transactions) && categories == old(categories) && pending == old(pending)
      ensures nextId == old(nextId)
    {
      outcome := Directory.DeletePerson(persons, transactions, p);
      if outcome.Done? {
        DeletePersonKeepsNames(persons, transactions, p);
        persons := outcome.list;
      }
    }

    /** The buy screen's `handleAddCategory`. */
    method AddCategory(input: string) returns (outcome: Outcome<Category>)
      requires Valid()
      modifies this
      ensures Valid()
      ensures outcome == Directory.AddCategory(old(categories), input)
      ensures outcome.Done? <==> !AllWhitespace(input) && !HasValue(old(categories), Trim(input))
      ensures outcome.Done? ==> categories == old(categories) + [Category(Trim(input), Trim(input))]
      ensures !outcome.Done? ==> categories == old(categories)
      ensures transactions == old(transactions) && persons == old(persons) && pending == old(pending)
      ensures nextId == old(nextId)
    {
      outcome := Directory.AddCategory(categories, input);
      if outcome.Done? {
        CategoryEditsKeepDistinct(categories, input, None, "");
        categories := outcome.list;
      }
    }

    /** The buy screen's `handleEditCategory`. */
    method EditCategory(edit: Option<Category>) returns (outcome: Outcome<Category>)
      requires Valid()
      modifies this
      ensures Valid()
      ensures outcome == Directory.EditCategory(old(categories), edit)
      ensures outcome.Done? ==> categories == outcome.list
      ensures !outcome.Done? ==> categories == old(categories)
      ensures transactions == old(transactions) && persons == old(persons) && pending == old(pending)
      ensures nextId == old(nextId)
    {
      outcome := Directory.EditCategory(categories, edit);
      if outcome.Done? {
        CategoryEditsKeepDistinct(categories, "", edit, "");
        categories := outcome.list;
      }
    }

    /** The buy screen's `handleDeleteCategory`. */
    method DeleteCategory(v: string)
      requires Valid()
      modifies this
      ensures Valid()
      ensures categories == Directory.DeleteCategory(old(categories), v)
      ensures !HasValue(categories, v)
      ensures transactions == old(transactions) && persons == old(persons) && pending == old(pending)
      ensures nextId == old(nextId)
    {
      DeleteKeepsDistinct(categories, v);
      categories := Directory.DeleteCategory(categories, v);
      assert !HasValue(categories, v);
    }
  }
}
