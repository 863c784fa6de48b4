/** The record validators: `validateInput`, the global `validateTransaction`,
    `handleTransaction`, and the buy screen's own `validateTransaction`, which
    shadows the global one inside that screen. Each takes an absent record
    (`null`/`undefined`) as `None`. */
module Validation {
  import opened JsValues
  import opened Transactions

  /** The value handed to `validateInput`, with the `type` argument as its tag. */
  datatype InputValue =
    | NumberInput(n: Number)           // type 'number'
    | OrderNumberInput(s: string)      // type 'orderNumber'
    | DescriptionInput(s: string)      // type 'description'
    | OtherInput                       // any other type

  /** A character of `[A-Za-z0-9-]`. */
  predicate IsOrderNumberChar(c: char) {
    ('A' <= c <= 'Z') || ('a' <= c <= 'z') || ('0' <= c <= '9') || c == '-'
  }

  /** The longest description the buy form keeps. */
  const MaxDescription: nat := 500

  /** `validateInput(value, type)`. */
  function ValidateInput(v: InputValue): (ok: bool)
    ensures v.OtherInput? ==> ok
  {
    match v
    case NumberInput(n) => n.Num? && n.value >= 0.0
    case OrderNumberInput(s) => |s| > 0 && forall k :: 0 <= k < |s| ==> IsOrderNumberChar(s[k])
    case DescriptionInput(s) => |s| <= MaxDescription
    case OtherInput => true
  }

  /** No character of an order number is one `trim` removes. */
  lemma OrderNumberCharNotBlank(c: char)
    requires IsOrderNumberChar(c)
    ensures !IsJsWhitespace(c)
  {
  }

  /** What passing the 'number' check tells its callers: NaN fails and 0 passes;
      together with the truthiness test the buy screen puts before it, exactly the
      positive numbers pass (the fact `BuyValidateTransaction` rests on). */
  lemma ValidateNumberMeaning(n: Number)
    ensures ValidateInput(NumberInput(n)) <==> !n.NaN? && !(n.value < 0.0)
    ensures !ValidateInput(NumberInput(NaN)) && ValidateInput(NumberInput(Num(0.0)))
    ensures (ValidateInput(NumberInput(n)) && n != Num(0.0)) <==> n.Num? && n.value > 0.0
  {
  }

  /** Exactly the non-empty strings of ASCII letters, digits and '-' pass the
      'orderNumber' check (`/^[A-Za-z0-9-]+$/`); such a string has no character that
      `trim` removes (no blank in particular), and so is its own trim. */
  lemma ValidateOrderNumberMeaning(s: string)
    ensures ValidateInput(OrderNumberInput(s)) <==> s != "" && forall k :: 0 <= k < |s| ==> IsOrderNumberChar(s[k])
    ensures ValidateInput(OrderNumberInput(s)) ==> s != "" && !exists k :: 0 <= k < |s| && s[k] == ' '
    ensures ValidateInput(OrderNumberInput(s)) ==>
              (forall k :: 0 <= k < |s| ==> !IsJsWhitespace(s[k])) && Trim(s) == s
  {
    if ValidateInput(OrderNumberInput(s)) {
      OrderNumberIsClean(s);
    }
  }

  /** A passing description has at most 500 characters, and so has every prefix of it. */
  lemma ValidateDescriptionMeaning(s: string)
    ensures ValidateInput(DescriptionInput(s)) <==> |s| < MaxDescription + 1
    ensures ValidateInput(DescriptionInput(s)) ==>
              forall m :: 0 <= m <= |s| ==> ValidateInput(DescriptionInput(s[..m]))
  {
  }

  lemma OrderNumberIsClean(s: string)
    requires s != "" && forall k :: 0 <= k < |s| ==> IsOrderNumberChar(s[k])
    ensures (forall k :: 0 <= k < |s| ==> !IsJsWhitespace(s[k])) && Trim(s) == s
  {
    forall k | 0 <= k < |s| ensures !IsJsWhitespace(s[k]) {
      OrderNumberCharNotBlank(s[k]);
    }
    TrimOfClean(s);
  }

  /** The global `validateTransaction`: each type needs its fields to be truthy. */
  predicate ValidateTransaction(t: Option<Transaction>) {
    match t
    case None => false
    case Some(tr) =>
      match tr
      case Receive(_, _, _, person, amount, _, _) => person != "" && amount != 0.0
      case Pay(_, _, _, person, amount, _) => person != "" && amount != 0.0
      case Transfer(_, _, _, from, to, amount, _) => from != "" && to != "" && amount != 0.0
      case Buy(_, _, _, _, _, quantity, _, orderNumber, _, _) => orderNumber != "" && Truthy(quantity)
      case Delivery(_, _, _, orderNumber, deliveryNumber, boxCount, weight, _) =>
        orderNumber != "" && deliveryNumber != "" && boxCount != 0.0 && weight != 0.0
  }

  /** The validator is truthiness-based: an amount of 0 is rejected for every kind
      that carries an amount and checks it, whatever the other fields hold. */
  lemma ZeroAmountRejected(tr: Transaction)
    requires tr.Receive? || tr.Pay? || tr.Transfer?
    requires tr.amount == 0.0
    ensures !ValidateTransaction(Some(tr))
  {
  }

  /** The buy case looks at `quantity`, not `amount`: a buy record without a
      quantity is rejected whatever its amount; one with a truthy quantity and an
      order number passes whatever its amount, zero included. */
  lemma BuyValidityIgnoresAmount(tr: Transaction, a: real)
    requires tr.Buy?
    ensures ValidateTransaction(Some(tr)) == ValidateTransaction(Some(tr.(amount := a)))
    ensures tr.quantity.None? ==> !ValidateTransaction(Some(tr))
  {
  }

  /** The action argument of `handleTransaction`. */
  datatype Action = Added | Updated | Deleted | OtherAction(name: string)

  /** `handleTransaction(transaction, action)`. Its extra check of the delivery
      fields repeats what the validator already required, so it never changes the
      answer. */
  function HandleTransaction(t: Option<Transaction>, action: Action): (ok: bool)
    ensures action == Deleted ==> (ok <==> t.Some?)
    ensures (action == Added || action == Updated) ==> (ok <==> ValidateTransaction(t))
    ensures action.OtherAction? ==> !ok
  {
    match action
    case Deleted => t.Some?
    case Added | Updated =>
      if !ValidateTransaction(t) then false
      else if t.value.Delivery? then
        var d := t.value;
        !(d.orderNumber == "" || d.deliveryNumber == "" || d.boxCount == 0.0 || d.weight == 0.0)
      else true
    case OtherAction(_) => false
  }

  /** The buy screen's local `validateTransaction`: only the types receive, pay,
      buy and transfer; a truthy amount that passes the 'number' check; a currency
      of the list. */
  function BuyValidateTransaction(t: Option<Transaction>): (ok: bool)
    ensures ok <==> t.Some? && !t.value.Delivery? && t.value.amount > 0.0
  {
    match t
    case None => false
    case Some(tr) =>
      var kindAllowed := tr.TypeOf() in {ReceiveKind, PayKind, BuyKind, TransferKind};
      var amount := tr.AmountField();
      // every `Currency` is one of usd, cny, irr, so only its presence is left to check
      var currencyAllowed := tr.CurrencyField().Some?;
      kindAllowed && Truthy(amount) && ValidateInput(NumberInput(ToNumber(amount))) && currencyAllowed
  }
}
