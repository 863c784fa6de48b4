/** The entry forms' guards and the records they build: receive, pay (usd to cny),
    transfer, buy item and delivery package. Each guard returns the first error of
    its checks, in the source's order, or the record(s) it appends. The form's
    clock reading is the parameter `now`. */
module Forms {
  import opened JsValues
  import opened Transactions
  import opened Validation
  import opened Digits
  import opened Balances

  /** A number field that holds a positive number: truthy, not NaN, above zero. */
  predicate PositiveField(f: Field) {
    f.Entered? && f.number.Num? && f.number.value > 0.0
  }

  // ------------------------------------------------------------------ receive

  datatype ReceiveError = SelectPerson | EnterAmount | AmountNotPositive | InvalidRate

  datatype ReceiveOutcome = ReceiveAccepted(record: Transaction) | ReceiveRejected(error: ReceiveError)

  /** usd and cny receipts carry a rate. */
  predicate HasRate(c: Currency) {
    c == Usd || c == Cny
  }

  /** `Number(toEnglishDigits(text))`: never NaN, since only digits are left. */
  function DigitsValue(text: string): nat {
    DecimalValue(ToEnglishDigits(text))
  }

  /** The receive form's `validate` and the record `handleSubmit` builds. The
      record's own checks (the global validator and `handleTransaction`) always
      pass on it, by `ReceiveRecordValid`. */
  function SubmitReceive(user: string, now: int, person: string, amountText: string,
                         currency: Currency, rateText: string): (r: ReceiveOutcome)
    ensures r.ReceiveAccepted? <==>
      person != "" && amountText != "" && DigitsValue(amountText) > 0
      && (HasRate(currency) ==> rateText != "" && DigitsValue(rateText) > 0)
    ensures r == ReceiveRejected(SelectPerson) <==> person == ""
    ensures r.ReceiveAccepted? ==>
      && r.record.Receive? && r.record.person == person && r.record.currency == currency
      && r.record.amount == DigitsValue(amountText) as real
      && (r.record.rate.Some? <==> HasRate(currency))
      && (HasRate(currency) ==> r.record.rate.value == DigitsValue(rateText) as real && r.record.rate.value > 0.0)
  {
    if person == "" then ReceiveRejected(SelectPerson)
    else if amountText == "" then ReceiveRejected(EnterAmount)
    else if DigitsValue(amountText) <= 0 then ReceiveRejected(AmountNotPositive)
    else if HasRate(currency) && (rateText == "" || DigitsValue(rateText) <= 0) then ReceiveRejected(InvalidRate)
    else
      var rate := if HasRate(currency) then Some(DigitsValue(rateText) as real) else None;
      ReceiveAccepted(Receive(user, now, "", person, DigitsValue(amountText) as real, currency, rate))
  }

  /** The record the receive form accepts passes the global validator and
      `handleTransaction(…, 'added')`, so the form's second check never fires. */
  lemma ReceiveRecordValid(user: string, now: int, person: string, amountText: string,
                           currency: Currency, rateText: string)
    requires SubmitReceive(user, now, person, amountText, currency, rateText).ReceiveAccepted?
    ensures var tr := SubmitReceive(user, now, person, amountText, currency, rateText).record;
      ValidateTransaction(Some(tr)) && HandleTransaction(Some(tr), Added)
  {
  }

  /** A digit other than zero, ASCII or Persian. */
  predicate IsNonZeroDigit(c: char) {
    ('1' <= c <= '9') || ('\U{06F1}' <= c <= '\U{06F9}')
  }

  /** The digits that survive `toEnglishDigits` include a non-zero one exactly when
      the text has a non-zero digit. */
  lemma {:induction false} NonZeroSurvives(s: string)
    ensures (exists k :: 0 <= k < |ToEnglishDigits(s)| && ToEnglishDigits(s)[k] != '0')
        <==> (exists k :: 0 <= k < |s| && IsNonZeroDigit(s[k]))
    decreases |s|
  {
    if |s| > 0 {
      NonZeroSurvives(s[1..]);
      var head, tail := DigitOf(s[0]), ToEnglishDigits(s[1..]);
      assert ToEnglishDigits(s) == head + tail;
      NotZeroSplit(head, tail);
      NonZeroCons(s);
      if IsAsciiDigit(s[0]) || IsPersianDigit(s[0]) {
        assert |head| == 1 && (head[0] != '0' <==> IsNonZeroDigit(s[0]));
      } else {
        assert head == "" && !IsNonZeroDigit(s[0]);
      }
    }
  }

  /** A concatenation has a character other than '0' when one of its parts has. */
  lemma NotZeroSplit(a: string, b: string)
    ensures (exists k :: 0 <= k < |a + b| && (a + b)[k] != '0')
        <==> (exists k :: 0 <= k < |a| && a[k] != '0') || (exists k :: 0 <= k < |b| && b[k] != '0')
  {
    var ab := a + b;
    if exists k :: 0 <= k < |ab| && ab[k] != '0' {
      var k :| 0 <= k < |ab| && ab[k] != '0';
      if k >= |a| { assert b[k - |a|] == ab[k]; } else { assert a[k] == ab[k]; }
    }
    if exists k :: 0 <= k < |a| && a[k] != '0' {
      var k :| 0 <= k < |a| && a[k] != '0';
      assert ab[k] == a[k];
    }
    if exists k :: 0 <= k < |b| && b[k] != '0' {
      var k :| 0 <= k < |b| && b[k] != '0';
      assert ab[|a| + k] == b[k];
    }
  }

  /** A text has a non-zero digit when its first character is one or its rest has one. */
  lemma NonZeroCons(s: string)
    requires |s| > 0
    ensures (exists k :: 0 <= k < |s| && IsNonZeroDigit(s[k]))
        <==> IsNonZeroDigit(s[0]) || (exists k :: 0 <= k < |s[1..]| && IsNonZeroDigit(s[1..][k]))
  {
    var t := s[1..];
    if exists k :: 0 <= k < |s| && IsNonZeroDigit(s[k]) {
      var k :| 0 <= k < |s| && IsNonZeroDigit(s[k]);
      if k > 0 { assert t[k - 1] == s[k]; }
    }
    if exists k :: 0 <= k < |t| && IsNonZeroDigit(t[k]) {
      var k :| 0 <= k < |t| && IsNonZeroDigit(t[k]);
      assert s[k + 1] == t[k];
    }
  }

  /** An amount text is positive exactly when it contains a digit other than zero
      (ASCII or Persian); separators and other characters do not count. */
  lemma AmountPositiveIffNonZeroDigit(text: string)
    ensures DigitsValue(text) > 0 <==> exists k :: 0 <= k < |text| && IsNonZeroDigit(text[k])
  {
    var e := ToEnglishDigits(text);
    DecimalValuePositive(e);
    NonZeroSurvives(text);
    assert DigitsValue(text) == DecimalValue(e);
  }

  // ---------------------------------------------------------------------- pay

  datatype PayError = SelectSender | SelectReceiver | SamePerson | EnterUsdAmount | InvalidUsdAmount
                    | EnterRate | InvalidPayRate

  /** Accepted: the pair is appended. Pending: the sender's usd balance is below
      the amount, and the pair waits for `handleConfirmNegativeBalance`. */
  datatype PayOutcome =
    | PayAccepted(records: seq<Transaction>)
    | PayPending(pending: seq<Transaction>)
    | PayRejected(error: PayError)

  /** The pay record of the sender in usd and the receive record of the receiver
      in cny at the rate. */
  function PayPair(user: string, now: int, sender: string, receiver: string, usd: real, rate: real): seq<Transaction> {
    [Pay(user, now, "", sender, usd, Usd), Receive(user, now, "", receiver, usd * rate, Cny, Some(rate))]
  }

  /** The pay screen's `validate` and `handleSubmit`. */
  function SubmitPay(ts: seq<Row>, user: string, now: int, sender: string, receiver: string,
                     amount: Field, rate: Field): (r: PayOutcome)
    ensures r.PayRejected? <==>
      !(sender != "" && receiver != "" && sender != receiver && PositiveField(amount) && PositiveField(rate))
    ensures r == PayRejected(SamePerson) <==> sender != "" && receiver != "" && sender == receiver
    ensures r.PayPending? <==> !r.PayRejected? && Less(SenderBalanceOf(ts, sender, Usd), amount.number)
    ensures r.PayAccepted? ==> r.records == PayPair(user, now, sender, receiver, amount.number.value, rate.number.value)
    ensures r.PayPending? ==> r.pending == PayPair(user, now, sender, receiver, amount.number.value, rate.number.value)
  {
    if sender == "" then PayRejected(SelectSender)
    else if receiver == "" then PayRejected(SelectReceiver)
    else if sender == receiver then PayRejected(SamePerson)
    else if amount.Blank? then PayRejected(EnterUsdAmount)
    else if !PositiveField(amount) then PayRejected(InvalidUsdAmount)
    else if rate.Blank? then PayRejected(EnterRate)
    else if !PositiveField(rate) then PayRejected(InvalidPayRate)
    else
      var pair := PayPair(user, now, sender, receiver, amount.number.value, rate.number.value);
      if Less(SenderBalanceOf(ts, sender, Usd), amount.number) then PayPending(pair) else PayAccepted(pair)
  }

  lemma PositiveProduct(a: real, b: real)
    requires a > 0.0 && b > 0.0
    ensures a * b > 0.0
  {
  }

  /** Both records of an accepted or pending pay pass the global validator and
      `handleTransaction(…, 'added')`, so they are always appended together. */
  lemma PayPairValid(ts: seq<Row>, user: string, now: int, sender: string, receiver: string,
                     amount: Field, rate: Field)
    requires !SubmitPay(ts, user, now, sender, receiver, amount, rate).PayRejected?
    ensures var pair := PayPair(user, now, sender, receiver, amount.number.value, rate.number.value);
      forall k :: 0 <= k < |pair| ==> ValidateTransaction(Some(pair[k])) && HandleTransaction(Some(pair[k]), Added)
  {
    PositiveProduct(amount.number.value, rate.number.value);
  }

  /** What the pair does to the dashboard: the sender loses the usd amount, the
      receiver gains amount times rate in cny, and nobody else and no other
      currency moves. */
  lemma PayPairEffect(ts: seq<Row>, user: string, now: int, sender: string, receiver: string,
                      usd: real, rate: real, id0: nat, id1: nat, p: string, c: Currency)
    requires sender != "" && receiver != "" && sender != receiver
    ensures var pair := PayPair(user, now, sender, receiver, usd, rate);
      var after := Net(ts + [Row(id0, pair[0]), Row(id1, pair[1])], p, c);
      after == Net(ts, p, c)
               + (if p == sender && c == Usd then -usd else 0.0)
               + (if p == receiver && c == Cny then usd * rate else 0.0)
  {
    var pair := PayPair(user, now, sender, receiver, usd, rate);
    var r0, r1 := Row(id0, pair[0]), Row(id1, pair[1]);
    NetSnoc(ts, r0, p, c);
    NetSnoc(ts + [r0], r1, p, c);
    assert ts + [r0] + [r1] == ts + [r0, r1];
  }

  // ----------------------------------------------------------------- transfer

  datatype TransferError = SelectFrom | SelectTo | SameParties | EnterTransferAmount
                         | TransferAmountNotPositive | InsufficientBalance

  datatype TransferOutcome = TransferAccepted(record: Transaction) | TransferRejected(error: TransferError)

  /** The checks of the transfer screen's `validate` before the balance check. */
  function TransferFieldsError(from: string, to: string, amount: Field): (e: Option<TransferError>)
    ensures e.None? <==> from != "" && to != "" && from != to && PositiveField(amount)
  {
    if from == "" then Some(SelectFrom)
    else if to == "" then Some(SelectTo)
    else if from == to then Some(SameParties)
    else if amount.Blank? then Some(EnterTransferAmount)
    else if !PositiveField(amount) then Some(TransferAmountNotPositive)
    else None
  }

  /** The transfer screen as written: the balance is `calculateSenderBalance`,
      which subtracts a buy row's `quantity`. */
  function SubmitTransferAsWritten(ts: seq<Row>, user: string, now: int, from: string, to: string,
                                   amount: Field, c: Currency): (r: TransferOutcome)
    ensures r.TransferAccepted? <==>
      TransferFieldsError(from, to, amount).None? && !Less(SenderBalanceOf(ts, from, c), amount.number)
    ensures r.TransferAccepted? ==> r.record == Transfer(user, now, "", from, to, amount.number.value, c)
  {
    var e := TransferFieldsError(from, to, amount);
    if e.Some? then TransferRejected(e.value)
    else if Less(SenderBalanceOf(ts, from, c), amount.number) then TransferRejected(InsufficientBalance)
    else TransferAccepted(Transfer(user, now, "", from, to, amount.number.value, c))
  }

  /** Once JACK has one buy item in cny (the buy form's rows have no quantity),
      the as-written check lets any transfer from JACK in cny through, however
      large: here JACK holds 10 cny and spent 5 of them, and a transfer of 100 is
      accepted. */
  lemma TransferOverdraftAsWritten(u: string)
    ensures var ts := [Row(0, Receive(u, 0, "", Jack, 10.0, Cny, Some(1.0))),
                       Row(1, Buy(u, 1, "", Jack, 5.0, None, Cny, "A-1", "", "active"))];
      && LedgerBalance(ts, Jack, Cny) == 5.0
      && SubmitTransferAsWritten(ts, u, 2, Jack, "AMiR", Entered(Num(100.0)), Cny).TransferAccepted?
  {
    var r0 := Row(0, Receive(u, 0, "", Jack, 10.0, Cny, Some(1.0)));
    var r1 := Row(1, Buy(u, 1, "", Jack, 5.0, None, Cny, "A-1", "", "active"));
    var ts := [r0, r1];
    assert ts[..1] == [r0];
    assert [r0][..0] == [];
    assert LedgerBalance([r0], Jack, Cny) == 10.0;
    assert LedgerBalance(ts, Jack, Cny) == LedgerBalance([r0], Jack, Cny) + HelperStep(r1.tx, Jack, Cny);
    SenderBalanceNaN(ts, Jack, Cny, 1);
  }

  /** The transfer screen with the balance every other screen uses (a buy row
      subtracts its amount). */
  function SubmitTransfer(ts: seq<Row>, user: string, now: int, from: string, to: string,
                          amount: Field, c: Currency): (r: TransferOutcome)
    ensures r.TransferAccepted? <==>
      TransferFieldsError(from, to, amount).None? && LedgerBalance(ts, from, c) >= amount.number.value
    ensures r == TransferRejected(InsufficientBalance) <==>
      TransferFieldsError(from, to, amount).None? && LedgerBalance(ts, from, c) < amount.number.value
    ensures r.TransferAccepted? ==> r.record == Transfer(user, now, "", from, to, amount.number.value, c)
  {
    var e := TransferFieldsError(from, to, amount);
    if e.Some? then TransferRejected(e.value)
    else if LedgerBalance(ts, from, c) < amount.number.value then TransferRejected(InsufficientBalance)
    else TransferAccepted(Transfer(user, now, "", from, to, amount.number.value, c))
  }

  /** An accepted transfer never takes the sender below zero, it passes the global
      validator, and it moves the amount from sender to receiver on the dashboard. */
  lemma TransferKeepsSenderSolvent(ts: seq<Row>, user: string, now: int, from: string, to: string,
                                   amount: Field, c: Currency, id: nat)
    requires SubmitTransfer(ts, user, now, from, to, amount, c).TransferAccepted?
    ensures var tr := SubmitTransfer(ts, user, now, from, to, amount, c).record;
      && LedgerBalance(ts + [Row(id, tr)], from, c) >= 0.0
      && LedgerBalance(ts + [Row(id, tr)], from, c) == LedgerBalance(ts, from, c) - tr.amount
      && ValidateTransaction(Some(tr))
      && Net(ts + [Row(id, tr)], from, c) == Net(ts, from, c) - tr.amount
      && Net(ts + [Row(id, tr)], to, c) == Net(ts, to, c) + tr.amount
  {
    var tr := SubmitTransfer(ts, user, now, from, to, amount, c).record;
    var row := Row(id, tr);
    assert (ts + [row])[..|ts + [row]| - 1] == ts;
    NetSnoc(ts, row, from, c);
    NetSnoc(ts, row, to, c);
  }

  // --------------------------------------------------------------------- buy

  datatype BuyError = SelectOrder | InvalidBuyAmount | InvalidTransaction

  datatype BuyOutcome = BuyAccepted(record: Transaction) | BuyRejected(error: BuyError)

  /** `description.slice(0, 500)`, counting characters rather than UTF-16 code units. */
  function Clip(s: string): (r: string)
    ensures |r| <= MaxDescription
    ensures |s| <= MaxDescription ==> r == s
    ensures r == s[..|r|]
  {
    if |s| <= MaxDescription then s else s[..MaxDescription]
  }

  /** A clipped description passes the 'description' check, is cut no shorter than
      it must be, and clipping it again changes nothing. */
  lemma ClipPassesCheck(s: string)
    ensures ValidateInput(DescriptionInput(Clip(s)))
    ensures |Clip(s)| == if |s| <= MaxDescription then |s| else MaxDescription
    ensures Clip(Clip(s)) == Clip(s)
  {
  }

  /** The buy screen's `handleAddTransaction`: a selected order, an amount that
      passes the 'number' check, then the screen's own record check. The record
      is JACK's, in cny, with no quantity. */
  function AddBuyItem(user: string, now: int, selectedOrder: string, amount: Field,
                      description: string, category: string, status: string): (r: BuyOutcome)
    ensures r == BuyRejected(SelectOrder) <==> selectedOrder == ""
    ensures r.BuyAccepted? <==>
      selectedOrder != "" && FieldNumber(amount).Num? && FieldNumber(amount).value > 0.0
    ensures r == BuyRejected(InvalidTransaction) <==>
      selectedOrder != "" && FieldNumber(amount) == Num(0.0)
    ensures r.BuyAccepted? ==>
      && r.record == Buy(user, now, Clip(description), Jack, FieldNumber(amount).value, None, Cny,
                         selectedOrder, category, status)
      && ValidateInput(DescriptionInput(r.record.description))
  {
    if selectedOrder == "" then BuyRejected(SelectOrder)
    else if !ValidateInput(NumberInput(FieldNumber(amount))) then BuyRejected(InvalidBuyAmount)
    else
      var tr := Buy(user, now, Clip(description), Jack, FieldNumber(amount).value, None, Cny,
                    selectedOrder, category, status);
      if !BuyValidateTransaction(Some(tr)) then BuyRejected(InvalidTransaction)
      else BuyAccepted(tr)
  }

  // ----------------------------------------------------------------- delivery

  datatype DeliveryError = EnterDeliveryNumber | InvalidBoxCount | InvalidWeight | EnterReceiptNumber

  datatype DeliveryOutcome = DeliveryAccepted(record: Transaction) | DeliveryRejected(error: DeliveryError)

  /** The field checks `handleSubmit` and `handleUpdate` share. */
  function DeliveryFieldsError(deliveryNumber: string, boxCount: Field, weight: Field,
                               receiptNumber: string): (e: Option<DeliveryError>)
    ensures e.None? <==>
      deliveryNumber != "" && PositiveField(boxCount) && PositiveField(weight) && receiptNumber != ""
  {
    if deliveryNumber == "" then Some(EnterDeliveryNumber)
    else if !PositiveField(boxCount) then Some(InvalidBoxCount)
    else if !PositiveField(weight) then Some(InvalidWeight)
    else if receiptNumber == "" then Some(EnterReceiptNumber)
    else None
  }

  /** The delivery screen's `handleSubmit`: a package record without an order number. */
  function SubmitDelivery(user: string, now: int, deliveryNumber: string, boxCount: Field, weight: Field,
                          receiptNumber: string, description: string): (r: DeliveryOutcome)
    ensures r.DeliveryAccepted? <==> DeliveryFieldsError(deliveryNumber, boxCount, weight, receiptNumber).None?
    ensures r.DeliveryAccepted? ==>
      && r.record == Delivery(user, now, description, "", deliveryNumber, boxCount.number.value,
                              weight.number.value, receiptNumber)
      && r.record.boxCount > 0.0 && r.record.weight > 0.0
  {
    var e := DeliveryFieldsError(deliveryNumber, boxCount, weight, receiptNumber);
    if e.Some? then DeliveryRejected(e.value)
    else DeliveryAccepted(Delivery(user, now, description, "", deliveryNumber, boxCount.number.value,
                                   weight.number.value, receiptNumber))
  }

  /** The package a new delivery makes has no order number, so the global
      validator (which a reports edit applies) rejects it. */
  lemma NewPackageFailsGlobalValidator(user: string, now: int, deliveryNumber: string, boxCount: Field,
                                       weight: Field, receiptNumber: string, description: string)
    requires SubmitDelivery(user, now, deliveryNumber, boxCount, weight, receiptNumber, description).DeliveryAccepted?
    ensures !ValidateTransaction(Some(SubmitDelivery(user, now, deliveryNumber, boxCount, weight,
                                                       receiptNumber, description).record))
  {
  }

  /** The delivery screen's `handleUpdate`: the edited package keeps its user, its
      date and its order number and takes the form's other fields. */
  function UpdateDelivery(editing: Transaction, deliveryNumber: string, boxCount: Field, weight: Field,
                          receiptNumber: string, description: string): (r: DeliveryOutcome)
    requires editing.Delivery?
    ensures r.DeliveryAccepted? <==> DeliveryFieldsError(deliveryNumber, boxCount, weight, receiptNumber).None?
    ensures r.DeliveryAccepted? ==>
      && r.record.Delivery?
      && r.record.user == editing.user && r.record.date == editing.date
      && r.record.orderNumber == editing.orderNumber
      && r.record.deliveryNumber == deliveryNumber && r.record.receiptNumber == receiptNumber
      && r.record.description == description
      && r.record.boxCount == boxCount.number.value && r.record.weight == weight.number.value
  {
    var e := DeliveryFieldsError(deliveryNumber, boxCount, weight, receiptNumber);
    if e.Some? then DeliveryRejected(e.value)
    else DeliveryAccepted(editing.(deliveryNumber := deliveryNumber, boxCount := boxCount.number.value,
                                   weight := weight.number.value, receiptNumber := receiptNumber,
                                   description := description))
  }
}
