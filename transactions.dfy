/** The ledger's records: persons, currencies and the five kinds of transaction.
    A field the JavaScript object lacks is the empty string (for text) or `None`
    (for an optional number); both are falsy there, as here. */
module Transactions {
  import opened JsValues

  /** The closed currency list: usd, cny, irr. */
  datatype Currency = Usd | Cny | Irr

  /** The `type` tag of a transaction. */
  datatype Kind = ReceiveKind | PayKind | TransferKind | BuyKind | DeliveryKind

  /** A transaction record. `user`, `date` (a timestamp in milliseconds) and
      `description` are common to every kind. */
  datatype Transaction =
    | Receive(user: string, date: int, description: string,
              person: string, amount: real, currency: Currency, rate: Option<real>)
    | Pay(user: string, date: int, description: string,
          person: string, amount: real, currency: Currency)
    | Transfer(user: string, date: int, description: string,
               from: string, to: string, amount: real, currency: Currency)
    | Buy(user: string, date: int, description: string,
          person: string, amount: real, quantity: Option<real>, currency: Currency,
          orderNumber: string, category: string, status: string)
    | Delivery(user: string, date: int, description: string,
               orderNumber: string, deliveryNumber: string, boxCount: real, weight: real,
               receiptNumber: string)
  {
    /** `tr.type`. */
    function TypeOf(): Kind {
      match this
      case Receive(_, _, _, _, _, _, _) => ReceiveKind
      case Pay(_, _, _, _, _, _) => PayKind
      case Transfer(_, _, _, _, _, _, _) => TransferKind
      case Buy(_, _, _, _, _, _, _, _, _, _) => BuyKind
      case Delivery(_, _, _, _, _, _, _, _) => DeliveryKind
    }

    /** `tr.person`, or "" where the record has none. */
    function PersonField(): string {
      if Receive? || Pay? || Buy? then person else ""
    }

    /** `tr.from`, or "" where the record has none. */
    function FromField(): string {
      if Transfer? then from else ""
    }

    /** `tr.to`, or "" where the record has none. */
    function ToField(): string {
      if Transfer? then to else ""
    }

    /** `tr.orderNumber`, or "" where the record has none. */
    function OrderNumberField(): string {
      if Buy? || Delivery? then orderNumber else ""
    }

    /** `tr.deliveryNumber`, or "" where the record has none. */
    function DeliveryNumberField(): string {
      if Delivery? then deliveryNumber else ""
    }

    /** `tr.amount`; a delivery has none. */
    function AmountField(): Option<real> {
      if Delivery? then None else Some(amount)
    }

    /** `tr.quantity`; only a buy record may carry one. */
    function QuantityField(): Option<real> {
      if Buy? then quantity else None
    }

    /** `tr.currency`; a delivery has none. */
    function CurrencyField(): Option<Currency> {
      if Delivery? then None else Some(currency)
    }
  }

  /** A transaction object in the list. `id` stands for the object's identity, which
      `===` compares: two rows with equal fields and different ids are two objects. */
  datatype Row = Row(id: nat, tx: Transaction)

  /** The owner the buy and order screens are fixed to. */
  const Jack: string := "JACK"

  /** One person's balance: a total per currency. */
  datatype Totals = Totals(usd: real, cny: real, irr: real) {
    function Get(c: Currency): real {
      match c
      case Usd => usd
      case Cny => cny
      case Irr => irr
    }

    /** The totals with `x` added in currency `c` only. */
    function Add(c: Currency, x: real): (t: Totals)
      ensures t.Get(c) == Get(c) + x
      ensures forall d :: d != c ==> t.Get(d) == Get(d)
    {
      match c
      case Usd => this.(usd := usd + x)
      case Cny => this.(cny := cny + x)
      case Irr => this.(irr := irr + x)
    }

    /** The totals with `other` added currency by currency. */
    function Plus(other: Totals): (t: Totals)
      ensures forall c :: t.Get(c) == Get(c) + other.Get(c)
    {
      Totals(usd + other.usd, cny + other.cny, irr + other.irr)
    }
  }

  /** `{ usd: 0, cny: 0, irr: 0 }`. */
  const ZeroTotals: Totals := Totals(0.0, 0.0, 0.0)
}
