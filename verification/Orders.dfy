/** Orders of the limit order book: the value an order holds, and the object that holds it. */
module Orders {

  datatype Status = New | PartiallyFilled | Filled | Cancelled

  /** The fields of an order, read at one moment. */
  datatype Rec = Rec(id: int, symbol: string, price: real, quantity: int, isBuy: bool, filled: int, status: Status)

  /** The status the fill routine assigns; the zero test comes first, so an order of quantity 0 stays `New`. */
  function StatusOf(filled: int, quantity: int): Status {
    if filled == 0 then New else if filled >= quantity then Filled else PartiallyFilled
  }

  function Fresh(id: int, symbol: string, price: real, quantity: int, isBuy: bool): Rec {
    Rec(id, symbol, price, quantity, isBuy, 0, New)
  }

  function Fill(r: Rec, n: int): Rec {
    r.(filled := r.filled + n, status := StatusOf(r.filled + n, r.quantity))
  }

  /** What every resting order looks like between two operations of the engine. */
  predicate Live(r: Rec) {
    0 <= r.filled < r.quantity && r.status == StatusOf(r.filled, r.quantity)
  }

  /** An order object; it is also one slot of the pool's storage, and `slot` is its offset there. */
  class Order {
    const slot: nat
    var id: int
    var symbol: string
    var price: real
    var quantity: int
    var filled: int
    var isBuy: bool
    var status: Status

    /** Raw storage: the field values mean nothing until `Set` constructs an order in it. */
    constructor (slot: nat)
      ensures this.slot == slot
    {
      this.slot := slot;
      id, symbol, price, quantity, filled, isBuy, status := 0, "", 0.0, 0, 0, false, New;
    }

    ghost function View(): Rec
      reads this
    {
      Rec(id, symbol, price, quantity, isBuy, filled, status)
    }

    method Set(id: int, symbol: string, price: real, quantity: int, isBuy: bool)
      modifies this
      ensures View() == Fresh(id, symbol, price, quantity, isBuy)
    {
      this.id, this.symbol, this.price := id, symbol, price;
      this.quantity, this.isBuy := quantity, isBuy;
      this.filled, this.status := 0, New;
    }

    method UpdateFilled(fillQuantity: int)
      modifies this
      ensures View() == Fill(old(View()), fillQuantity)
    {
      filled := filled + fillQuantity;
      if filled == 0 {
        status := New;
      } else if filled >= quantity {
        status := Filled;
      } else {
        status := PartiallyFilled;
      }
    }
  }
}
