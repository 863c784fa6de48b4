/** The balance computations, as functions of the transaction list:
    - the dashboard's person -> currency -> total fold (`Net`, `MentionedIn`);
    - the single-account helpers of the buy screen (JACK in cny) and of the
      pay and transfer screens (`LedgerBalance`, `SenderBalanceOf`);
    - the dashboard's weighted average usd rate (`UsdVolume`, `IrrVolume`).
    Each is a left fold over the list, so each is defined on the list without its
    last row; the loops of `AppState` consume the rows in the same order. */
module Balances {
  import opened JsValues
  import opened Transactions

  // ---------------------------------------------------------------- dashboard

  /** How one row moves person `p`'s dashboard balance in currency `c`:
      receive credits its person, pay and buy debit theirs, a transfer with both
      ends present debits `from` and credits `to`, a delivery does nothing.
      A row whose person field is empty is skipped. */
  function Effect(tr: Transaction, p: string, c: Currency): real {
    match tr
    case Receive(_, _, _, person, amount, currency, _) =>
      if person != "" && person == p && currency == c then amount else 0.0
    case Pay(_, _, _, person, amount, currency) =>
      if person != "" && person == p && currency == c then -amount else 0.0
    case Buy(_, _, _, person, amount, _, currency, _, _, _) =>
      if person != "" && person == p && currency == c then -amount else 0.0
    case Transfer(_, _, _, from, to, amount, currency) =>
      if from != "" && to != "" && currency == c then
        (if from == p then -amount else 0.0) + (if to == p then amount else 0.0)
      else 0.0
    case Delivery(_, _, _, _, _, _, _, _) => 0.0
  }

  /** Person `p`'s balance in currency `c`: the sum of the effects of all rows. */
  function Net(ts: seq<Row>, p: string, c: Currency): real {
    if |ts| == 0 then 0.0 else Net(ts[..|ts| - 1], p, c) + Effect(ts[|ts| - 1].tx, p, c)
  }

  function NetTotals(ts: seq<Row>, p: string): Totals {
    Totals(Net(ts, p, Usd), Net(ts, p, Cny), Net(ts, p, Irr))
  }

  /** The row makes the dashboard open an entry for `p` (with zeros) if it has none. */
  predicate Opens(tr: Transaction, p: string) {
    match tr
    case Receive(_, _, _, person, _, _, _) => person != "" && person == p
    case Pay(_, _, _, person, _, _) => person != "" && person == p
    case Buy(_, _, _, person, _, _, _, _, _, _) => person != "" && person == p
    case Transfer(_, _, _, from, to, _, _) => from != "" && to != "" && (from == p || to == p)
    case Delivery(_, _, _, _, _, _, _, _) => false
  }

  predicate MentionedIn(ts: seq<Row>, p: string) {
    exists i :: 0 <= i < |ts| && Opens(ts[i].tx, p)
  }

  /** One more row adds its effect to a balance. */
  lemma NetStepAt(ts: seq<Row>, j: nat, p: string, c: Currency)
    requires j < |ts|
    ensures Net(ts[..j + 1], p, c) == Net(ts[..j], p, c) + Effect(ts[j].tx, p, c)
  {
    assert ts[..j + 1][..j] == ts[..j];
  }

  /** One more row mentions the persons it opens. */
  lemma MentionedStep(ts: seq<Row>, j: nat)
    requires j < |ts|
    ensures forall p :: MentionedIn(ts[..j + 1], p) <==> MentionedIn(ts[..j], p) || Opens(ts[j].tx, p)
  {
    var pre, post := ts[..j], ts[..j + 1];
    forall p ensures MentionedIn(post, p) <==> MentionedIn(pre, p) || Opens(ts[j].tx, p) {
      if MentionedIn(pre, p) {
        var i :| 0 <= i < |pre| && Opens(pre[i].tx, p);
        assert post[i] == pre[i];
      }
      if Opens(ts[j].tx, p) {
        assert post[j] == ts[j];
      }
    }
  }

  /** A transfer with both ends debits `from` and credits `to` in its currency. */
  lemma TransferEffect(tr: Transaction, p: string, c: Currency)
    requires tr.Transfer? && tr.from != "" && tr.to != ""
    ensures Effect(tr, p, c)
      == if c == tr.currency then (if p == tr.from then -tr.amount else 0.0) + (if p == tr.to then tr.amount else 0.0) else 0.0
  {
  }

  /** A row moves only balances of persons it opens. */
  lemma EffectOnlyOnOpened(tr: Transaction, p: string, c: Currency)
    requires !Opens(tr, p)
    ensures Effect(tr, p, c) == 0.0
  {
  }

  lemma {:induction false} NetAppend(a: seq<Row>, b: seq<Row>, p: string, c: Currency)
    ensures Net(a + b, p, c) == Net(a, p, c) + Net(b, p, c)
    decreases |b|
  {
    if |b| == 0 {
      assert a + b == a;
    } else {
      assert (a + b)[..|a + b| - 1] == a + b[..|b| - 1];
      NetAppend(a, b[..|b| - 1], p, c);
    }
  }

  /** The fold is commutative: swapping two neighbouring rows changes no balance. */
  lemma NetOrderIrrelevant(a: seq<Row>, x: Row, y: Row, b: seq<Row>, p: string, c: Currency)
    ensures Net(a + [x, y] + b, p, c) == Net(a + [y, x] + b, p, c)
  {
    NetAppend(a + [x, y], b, p, c);
    NetAppend(a + [y, x], b, p, c);
    NetAppend(a, [x, y], p, c);
    NetAppend(a, [y, x], p, c);
    assert [x, y][..1] == [x];
    assert [y, x][..1] == [y];
  }

  /** Appending one row changes each balance by that row's effect. */
  lemma NetSnoc(ts: seq<Row>, r: Row, p: string, c: Currency)
    ensures Net(ts + [r], p, c) == Net(ts, p, c) + Effect(r.tx, p, c)
  {
    assert (ts + [r])[..|ts + [r]| - 1] == ts;
  }

  /** A transfer of `a` from X to Y in C debits X by `a`, credits Y by `a`, keeps
      the sum of the two in C, and moves no other entry. */
  lemma TransferConservation(ts: seq<Row>, r: Row)
    requires r.tx.Transfer? && r.tx.from != "" && r.tx.to != "" && r.tx.from != r.tx.to
    ensures var t := r.tx;
      && Net(ts + [r], t.from, t.currency) == Net(ts, t.from, t.currency) - t.amount
      && Net(ts + [r], t.to, t.currency) == Net(ts, t.to, t.currency) + t.amount
      && Net(ts + [r], t.from, t.currency) + Net(ts + [r], t.to, t.currency)
         == Net(ts, t.from, t.currency) + Net(ts, t.to, t.currency)
    ensures forall p, c :: (p != r.tx.from && p != r.tx.to) || c != r.tx.currency
              ==> Net(ts + [r], p, c) == Net(ts, p, c)
  {
    NetSnoc(ts, r, r.tx.from, r.tx.currency);
    NetSnoc(ts, r, r.tx.to, r.tx.currency);
    forall p, c | (p != r.tx.from && p != r.tx.to) || c != r.tx.currency
      ensures Net(ts + [r], p, c) == Net(ts, p, c)
    {
      NetSnoc(ts, r, p, c);
    }
  }

  /** Rows that leave every dashboard balance as it was: deliveries, transfers
      lacking an end, and transfers from a person to themself. */
  lemma NeutralRows(ts: seq<Row>, r: Row, p: string, c: Currency)
    requires r.tx.Delivery? || (r.tx.Transfer? && (r.tx.from == "" || r.tx.to == "" || r.tx.from == r.tx.to))
    ensures Net(ts + [r], p, c) == Net(ts, p, c)
  {
    NetSnoc(ts, r, p, c);
  }

  /** The worked example: receive 100 usd for A, pay 30 usd from A, transfer 20
      usd from A to B leave A with 50 usd and B with 20 usd. */
  lemma DashboardExample(u: string, d: int)
    ensures var ts := [Row(0, Receive(u, d, "", "A", 100.0, Usd, None)),
                       Row(1, Pay(u, d, "", "A", 30.0, Usd)),
                       Row(2, Transfer(u, d, "", "A", "B", 20.0, Usd))];
      NetTotals(ts, "A") == Totals(50.0, 0.0, 0.0) && NetTotals(ts, "B") == Totals(20.0, 0.0, 0.0)
  {
    var r0 := Row(0, Receive(u, d, "", "A", 100.0, Usd, None));
    var r1 := Row(1, Pay(u, d, "", "A", 30.0, Usd));
    var r2 := Row(2, Transfer(u, d, "", "A", "B", 20.0, Usd));
    assert [r0, r1, r2] == [r0, r1] + [r2];
    assert [r0, r1] == [r0] + [r1];
    assert [r0] == [] + [r0];
    forall p, c ensures Net([r0, r1, r2], p, c) == Effect(r0.tx, p, c) + Effect(r1.tx, p, c) + Effect(r2.tx, p, c) {
      NetSnoc([], r0, p, c);
      NetSnoc([r0], r1, p, c);
      NetSnoc([r0, r1], r2, p, c);
    }
  }

  /** The search box's test on a listed name: no term, or a name that includes it. */
  predicate Shown(name: string, search: string) {
    search == "" || Includes(name, search)
  }

  /** `filteredPersons`: the listed persons the dashboard's table and charts show,
      in list order. Only listed persons are shown, whatever the balances map holds. */
  function ShownPersons(ps: seq<string>, search: string): seq<string> {
    if |ps| == 0 then [] else (if Shown(ps[0], search) then [ps[0]] else []) + ShownPersons(ps[1..], search)
  }

  /** The dashboard shows exactly the listed names that pass the search, each as
      often as it is listed; with an empty search box, the whole list. */
  lemma {:induction false} ShownPersonsSpec(ps: seq<string>, search: string)
    ensures forall x :: multiset(ShownPersons(ps, search))[x] == if Shown(x, search) then multiset(ps)[x] else 0
    ensures search == "" ==> ShownPersons(ps, search) == ps
    decreases |ps|
  {
    if |ps| > 0 {
      ShownPersonsSpec(ps[1..], search);
      assert ps == [ps[0]] + ps[1..];
    }
  }

  /** `balances[p]?.cny || 0` (and its usd and irr twins): the entry of `p` in
      currency `c`, or 0 when the map has none. */
  function Entry<K>(b: map<K, Totals>, p: K, c: Currency): real {
    if p in b then b[p].Get(c) else 0.0
  }

  /** `personNames.map(p => balances[p]?.usd || 0).reduce((a, b) => a + b, 0)` and its
      cny and irr twins: the sum of the shown persons' entries, which the total
      cards display. */
  function ShownTotal<K>(b: map<K, Totals>, names: seq<K>, c: Currency): real {
    if |names| == 0 then 0.0 else Entry(b, names[0], c) + ShownTotal(b, names[1..], c)
  }

  // ------------------------------------------------------ single-account helpers

  /** Transfers whose two ends are present and differ, as the transfer form makes them. */
  predicate WellFormedTransfers(ts: seq<Row>) {
    forall i :: 0 <= i < |ts| && ts[i].tx.Transfer? ==>
      ts[i].tx.from != "" && ts[i].tx.to != "" && ts[i].tx.from != ts[i].tx.to
  }

  /** One row's step in the helper loops that subtract `amount` for buy rows (the
      JACK helper). A transfer is `if from ... else if to`, so one from `p` to `p`
      only debits. No field is tested for truthiness. */
  function HelperStep(tr: Transaction, p: string, c: Currency): real {
    match tr
    case Receive(_, _, _, person, amount, currency, _) => if person == p && currency == c then amount else 0.0
    case Pay(_, _, _, person, amount, currency) => if person == p && currency == c then -amount else 0.0
    case Buy(_, _, _, person, amount, _, currency, _, _, _) => if person == p && currency == c then -amount else 0.0
    case Transfer(_, _, _, from, to, amount, currency) =>
      if from == p && currency == c then -amount
      else if to == p && currency == c then amount
      else 0.0
    case Delivery(_, _, _, _, _, _, _, _) => 0.0
  }

  function LedgerBalance(ts: seq<Row>, p: string, c: Currency): real {
    if |ts| == 0 then 0.0 else LedgerBalance(ts[..|ts| - 1], p, c) + HelperStep(ts[|ts| - 1].tx, p, c)
  }

  /** `calculateJackBalance()`: JACK's balance in cny. */
  function JackBalanceOf(ts: seq<Row>): real {
    LedgerBalance(ts, Jack, Cny)
  }

  /** For a named person and transfers as the form makes them, the helper agrees
      with the dashboard. */
  lemma {:induction false} LedgerBalanceIsNet(ts: seq<Row>, p: string, c: Currency)
    requires p != "" && WellFormedTransfers(ts)
    ensures LedgerBalance(ts, p, c) == Net(ts, p, c)
  {
    if |ts| > 0 {
      LedgerBalanceIsNet(ts[..|ts| - 1], p, c);
    }
  }

  /** With a transfer from JACK to JACK in cny the helpers part: the JACK helper
      debits the amount, the dashboard nets it to zero. */
  lemma JackSelfTransferDiverges(u: string, d: int, a: real)
    requires a != 0.0
    ensures var ts := [Row(0, Transfer(u, d, "", Jack, Jack, a, Cny))];
      JackBalanceOf(ts) == -a && Net(ts, Jack, Cny) == 0.0
  {
    var r := Row(0, Transfer(u, d, "", Jack, Jack, a, Cny));
    assert [r][..0] == [];
    assert LedgerBalance([r], Jack, Cny) == HelperStep(r.tx, Jack, Cny);
    assert Net([r], Jack, Cny) == Effect(r.tx, Jack, Cny);
  }

  /** One row's step in the sender-balance loop of the pay and transfer screens:
      as `HelperStep`, but a buy row subtracts `Number(tr.quantity)`, which is NaN
      when the row has no quantity. */
  function SenderStep(acc: Number, tr: Transaction, p: string, c: Currency): Number {
    match tr
    case Receive(_, _, _, person, amount, currency, _) =>
      if person == p && currency == c then Add(acc, Num(amount)) else acc
    case Pay(_, _, _, person, amount, currency) =>
      if person == p && currency == c then Sub(acc, Num(amount)) else acc
    case Buy(_, _, _, person, _, quantity, currency, _, _, _) =>
      if person == p && currency == c then Sub(acc, ToNumber(quantity)) else acc
    case Transfer(_, _, _, from, to, amount, currency) =>
      if from == p && currency == c then Sub(acc, Num(amount))
      else if to == p && currency == c then Add(acc, Num(amount))
      else acc
    case Delivery(_, _, _, _, _, _, _, _) => acc
  }

  /** `calculateSenderBalance(person, currency)` of the transfer screen (the pay
      screen's is the same with usd fixed). */
  function SenderBalanceOf(ts: seq<Row>, p: string, c: Currency): Number {
    if |ts| == 0 then Num(0.0) else SenderStep(SenderBalanceOf(ts[..|ts| - 1], p, c), ts[|ts| - 1].tx, p, c)
  }

  /** A buy row of `p` in `c` that carries no quantity. */
  predicate QuantitylessBuy(tr: Transaction, p: string, c: Currency) {
    tr.Buy? && tr.person == p && tr.currency == c && tr.quantity.None?
  }

  /** Once the list holds a buy row of `p` in `c` without a quantity (every row the
      buy form makes is one), the sender balance is NaN from there on. */
  lemma {:induction false} SenderBalanceNaN(ts: seq<Row>, p: string, c: Currency, i: nat)
    requires i < |ts| && QuantitylessBuy(ts[i].tx, p, c)
    ensures SenderBalanceOf(ts, p, c).NaN?
  {
    if i < |ts| - 1 {
      SenderBalanceNaN(ts[..|ts| - 1], p, c, i);
    }
  }

  /** As `HelperStep`, but a buy row of `p` in `c` subtracts the quantity it
      carries (such a row is assumed to carry one) rather than its amount. */
  function QuantityStep(tr: Transaction, p: string, c: Currency): real {
    if tr.Buy? && tr.person == p && tr.currency == c then
      (if tr.quantity.Some? then -tr.quantity.value else 0.0)
    else HelperStep(tr, p, c)
  }

  /** The helper balance with quantities in place of buy amounts. */
  function QuantityBalance(ts: seq<Row>, p: string, c: Currency): real {
    if |ts| == 0 then 0.0 else QuantityBalance(ts[..|ts| - 1], p, c) + QuantityStep(ts[|ts| - 1].tx, p, c)
  }

  /** On a number, one sender step adds the quantity step. */
  lemma SenderStepIsQuantityStep(acc: real, tr: Transaction, p: string, c: Currency)
    requires !QuantitylessBuy(tr, p, c)
    ensures SenderStep(Num(acc), tr, p, c) == Num(acc + QuantityStep(tr, p, c))
  {
  }

  /** When no buy row of `p` in `c` lacks a quantity, the sender balance is a number:
      the helper balance with each such row's quantity subtracted in place of its
      amount. */
  lemma {:induction false} SenderBalanceWithQuantities(ts: seq<Row>, p: string, c: Currency)
    requires forall i :: 0 <= i < |ts| ==> !QuantitylessBuy(ts[i].tx, p, c)
    ensures SenderBalanceOf(ts, p, c) == Num(QuantityBalance(ts, p, c))
  {
    if |ts| > 0 {
      var init := ts[..|ts| - 1];
      assert forall i :: 0 <= i < |init| ==> !QuantitylessBuy(init[i].tx, p, c) by {
        forall i | 0 <= i < |init| ensures !QuantitylessBuy(init[i].tx, p, c) {
          assert init[i] == ts[i];
        }
      }
      SenderBalanceWithQuantities(init, p, c);
      assert !QuantitylessBuy(ts[|ts| - 1].tx, p, c);
      SenderStepIsQuantityStep(QuantityBalance(init, p, c), ts[|ts| - 1].tx, p, c);
    }
  }

  /** The sender balance is NaN exactly when a buy row of `p` in `c` lacks a quantity. */
  lemma SenderBalanceNaNIff(ts: seq<Row>, p: string, c: Currency)
    ensures SenderBalanceOf(ts, p, c).NaN? <==> exists i :: 0 <= i < |ts| && QuantitylessBuy(ts[i].tx, p, c)
  {
    if exists i :: 0 <= i < |ts| && QuantitylessBuy(ts[i].tx, p, c) {
      var i :| 0 <= i < |ts| && QuantitylessBuy(ts[i].tx, p, c);
      SenderBalanceNaN(ts, p, c, i);
    } else {
      SenderBalanceWithQuantities(ts, p, c);
    }
  }

  /** When each buy row of `p` in `c` carries a quantity equal to its amount, the
      quantity balance is the helper balance, so (by `LedgerBalanceIsNet`) the
      dashboard's. */
  lemma {:induction false} QuantityBalanceIsLedgerBalance(ts: seq<Row>, p: string, c: Currency)
    requires forall i :: 0 <= i < |ts| && ts[i].tx.Buy? && ts[i].tx.person == p && ts[i].tx.currency == c
               ==> ts[i].tx.quantity == Some(ts[i].tx.amount)
    ensures QuantityBalance(ts, p, c) == LedgerBalance(ts, p, c)
  {
    if |ts| > 0 {
      var init := ts[..|ts| - 1];
      assert forall i :: 0 <= i < |init| && init[i].tx.Buy? && init[i].tx.person == p && init[i].tx.currency == c
               ==> init[i].tx.quantity == Some(init[i].tx.amount) by {
        forall i | 0 <= i < |init| ensures init[i] == ts[i] {
        }
      }
      QuantityBalanceIsLedgerBalance(init, p, c);
    }
  }

  // ---------------------------------------------------------- average usd rate

  /** A row `calculateAverageUsdRate` counts: a receive in usd with a truthy rate. */
  predicate RateCounts(tr: Transaction) {
    tr.Receive? && tr.currency == Usd && Truthy(tr.rate)
  }

  /** The usd amount of the counted rows. */
  function UsdVolume(ts: seq<Row>): real {
    if |ts| == 0 then 0.0
    else UsdVolume(ts[..|ts| - 1]) + (if RateCounts(ts[|ts| - 1].tx) then ts[|ts| - 1].tx.amount else 0.0)
  }

  /** The irr worth of the counted rows: amount times rate. */
  function IrrVolume(ts: seq<Row>): real {
    if |ts| == 0 then 0.0
    else IrrVolume(ts[..|ts| - 1])
         + (if RateCounts(ts[|ts| - 1].tx) then ts[|ts| - 1].tx.amount * ts[|ts| - 1].tx.rate.value else 0.0)
  }

  /** Every counted row has a positive amount and a rate in [lo, hi]. */
  predicate RatesWithin(ts: seq<Row>, lo: real, hi: real) {
    forall i :: 0 <= i < |ts| && RateCounts(ts[i].tx) ==>
      ts[i].tx.amount > 0.0 && lo <= ts[i].tx.rate.value <= hi
  }

  lemma ScaleBounds(amount: real, rate: real, lo: real, hi: real)
    requires amount > 0.0 && lo <= rate <= hi
    ensures lo * amount <= amount * rate <= hi * amount
  {
    assert amount * rate - lo * amount == amount * (rate - lo);
    assert hi * amount - amount * rate == amount * (hi - rate);
  }

  lemma StepBounds(u0: real, i0: real, amount: real, rate: real, lo: real, hi: real)
    requires lo * u0 <= i0 <= hi * u0 && amount > 0.0 && lo <= rate <= hi
    ensures lo * (u0 + amount) <= i0 + amount * rate <= hi * (u0 + amount)
  {
    ScaleBounds(amount, rate, lo, hi);
    assert lo * (u0 + amount) == lo * u0 + lo * amount;
    assert hi * (u0 + amount) == hi * u0 + hi * amount;
  }

  lemma {:induction false} VolumesBounded(ts: seq<Row>, lo: real, hi: real)
    requires RatesWithin(ts, lo, hi)
    ensures lo * UsdVolume(ts) <= IrrVolume(ts) <= hi * UsdVolume(ts)
    ensures UsdVolume(ts) >= 0.0
  {
    if |ts| > 0 {
      var init := ts[..|ts| - 1];
      assert RatesWithin(init, lo, hi) by {
        forall i | 0 <= i < |init| && RateCounts(init[i].tx)
          ensures init[i].tx.amount > 0.0 && lo <= init[i].tx.rate.value <= hi
        {
          assert init[i] == ts[i];
        }
      }
      VolumesBounded(init, lo, hi);
      var t := ts[|ts| - 1].tx;
      if RateCounts(t) {
        StepBounds(UsdVolume(init), IrrVolume(init), t.amount, t.rate.value, lo, hi);
      }
    }
  }

  lemma DivideBounds(x: real, u: real, lo: real, hi: real)
    requires u > 0.0 && lo * u <= x <= hi * u
    ensures lo <= x / u <= hi
  {
    assert x == (x / u) * u;
  }

  /** A weighted average lies between the smallest and the largest rate counted:
      if every counted rate is in [lo, hi] (and amounts are positive), so is
      `irr / usd`; with one rate throughout, the average is that rate. */
  lemma AverageWithinRates(ts: seq<Row>, lo: real, hi: real)
    requires RatesWithin(ts, lo, hi) && UsdVolume(ts) != 0.0
    ensures lo <= IrrVolume(ts) / UsdVolume(ts) <= hi
  {
    VolumesBounded(ts, lo, hi);
    var u, x := UsdVolume(ts), IrrVolume(ts);
    assert u > 0.0;
    DivideBounds(x, u, lo, hi);
    assert lo <= x / u <= hi;
  }
}
