/** One order (src/Order.h, src/Order.cpp). The id, agent, type, price and
    initial volume are fixed at construction (the C++ class has getters only
    for them), so they are `const`; the remaining volume and the status change
    in place.  The `prev`/`next` links of the C++ class are not fields here:
    a price level keeps its orders as a sequence. */
module Orders {
  import opened Types

  class Order {
    const id: Id
    const agentId: Id
    const orderType: OrderType
    const price: Price
    const initialVolume: Volume
    var volume: Volume
    var status: OrderStatus

    /** A new order has all of its volume left, is ACTIVE and is not linked. */
    constructor (id: Id, agentId: Id, orderType: OrderType, price: Price, volume: Volume)
      ensures this.id == id && this.agentId == agentId && this.orderType == orderType && this.price == price
      ensures this.initialVolume == volume && this.volume == volume
      ensures status == Active
    {
      this.id := id;
      this.agentId := agentId;
      this.orderType := orderType;
      this.price := price;
      this.initialVolume := volume;
      this.volume := volume;
      this.status := Active;
    }

    /** `Order::fill`. Filling more than what is left throws `logic_error`
        (`ok` is false) and changes nothing; otherwise the remaining volume
        drops by exactly `fillVolume`, and the status becomes FULFILLED when
        that leaves nothing and is kept otherwise. So after a fill of an
        order that was not FULFILLED, `is_fulfilled` (which the loop of
        `Limit::match_order` tests) and the FULFILLED status (which the loop
        of `Book::place_order` tests) agree. */
    method Fill(fillVolume: Volume) returns (ok: bool)
      modifies this`volume, this`status
      ensures ok <==> fillVolume <= old(volume)
      ensures ok ==> volume == old(volume) - fillVolume
      ensures ok ==> status == (if volume == 0 then Fulfilled else old(status))
      ensures !ok ==> volume == old(volume) && status == old(status)
      ensures volume <= old(volume)
      ensures ok && old(status) != Fulfilled ==> (IsFulfilled() <==> status == Fulfilled)
    {
      if fillVolume > volume {
        return false;
      }
      volume := volume - fillVolume;
      if volume == 0 {
        status := Fulfilled;
      }
      ok := true;
    }

    /** `Order::is_fulfilled` looks at the volume only, not at the status. */
    predicate IsFulfilled()
      reads this`volume
      ensures IsFulfilled() <==> volume == 0
    {
      volume == 0
    }

    method SetStatus(status: OrderStatus)
      modifies this`status
      ensures this.status == status
    {
      this.status := status;
    }
  }

  /** A freshly built order with no volume already counts as fulfilled,
      although its status is ACTIVE: the two notions differ. */
  method ZeroVolumeOrder(id: Id, agentId: Id, orderType: OrderType, price: Price) returns (o: Order)
    ensures fresh(o)
    ensures o.IsFulfilled() && o.status == Active
  {
    o := new Order(id, agentId, orderType, price, 0);
  }
}
