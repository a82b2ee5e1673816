/** The `Book` class of src/Book.cpp: the fields its methods update in
    place, and each method proved to compute the matching function of
    `BookSpec` on the book's state. */
module Books {
  import opened Types
  import opened LevelSpec
  import opened Trees
  import opened BookSpec

  class Book {
    /** `buy_limits` / `sell_limits`: each price level as the ids and
        remaining volumes of its orders, oldest first. */
    var buyLimits: map<Price, seq<Entry>>
    var sellLimits: map<Price, seq<Entry>>
    /** `buy_tree` / `sell_tree`: the prices of the levels, in increasing order. */
    var buyTree: seq<Price>
    var sellTree: seq<Price>
    /** `best_buy` / `best_sell`, 0 for an empty side. */
    var bestBuy: Price
    var bestSell: Price
    /** `id_to_order`: the resting orders by id. */
    var idToOrder: map<Id, Resting>

    /** The book as a value. */
    ghost function State(): BookState
      reads this
    {
      BookState(Side(buyLimits, buyTree, bestBuy), Side(sellLimits, sellTree, bestSell), idToOrder)
    }

    constructor()
      ensures State() == EmptyBook()
    {
      buyLimits, sellLimits := map[], map[];
      buyTree, sellTree := [], [];
      bestBuy, bestSell := 0, 0;
      idToOrder := map[];
    }

    /** `update_best_buy` / `update_best_sell`. */
    method UpdateBest(t: OrderType)
      requires Increasing(SideOf(State(), t).tree)
      modifies this
      ensures State() == WithSide(old(State()), t, BookSpec.UpdateBest(SideOf(old(State()), t), t))
    {
      if t == Buy {
        if buyTree != [] {
          bestBuy := buyTree[|buyTree| - 1];
        } else {
          bestBuy := 0;
        }
      } else {
        if sellTree != [] {
          bestSell := sellTree[0];
        } else {
          bestSell := 0;
        }
      }
    }

    /** `check_for_empty_buy_limit` / `check_for_empty_sell_limit`. */
    method CheckForEmptyLimit(t: OrderType, price: Price)
      requires Increasing(SideOf(State(), t).tree)
      modifies this
      ensures State() == WithSide(old(State()), t, BookSpec.CheckForEmptyLimit(SideOf(old(State()), t), t, price))
    {
      if t == Buy {
        if price in buyLimits && buyLimits[price] == [] {
          buyLimits := buyLimits - {price};
          buyTree := Remove(buyTree, price);
          if price == bestBuy {
            UpdateBest(Buy);
          }
        }
      } else {
        if price in sellLimits && sellLimits[price] == [] {
          sellLimits := sellLimits - {price};
          sellTree := Remove(sellTree, price);
          if price == bestSell {
            UpdateBest(Sell);
          }
        }
      }
    }

    /** `get_or_create_limit`: makes sure there is a level at `price`. */
    method GetOrCreateLimit(t: OrderType, price: Price)
      requires Increasing(SideOf(State(), t).tree)
      modifies this
      ensures State() == WithSide(old(State()), t, BookSpec.GetOrCreateLimit(SideOf(old(State()), t), price))
    {
      if t == Buy {
        if price !in buyLimits {
          buyLimits := buyLimits[price := []];
          buyTree := Insert(buyTree, price);
        }
      } else {
        if price !in sellLimits {
          sellLimits := sellLimits[price := []];
          sellTree := Insert(sellTree, price);
        }
      }
    }

    /** `insert_order`: the order joins the back of the level at its price,
        which becomes the best price when it improves on it. */
    method InsertOrder(t: OrderType, price: Price, e: Entry)
      requires Increasing(SideOf(State(), t).tree)
      modifies this
      ensures State() == WithSide(old(State()), t, BookSpec.InsertOrder(SideOf(old(State()), t), t, price, e))
    {
      GetOrCreateLimit(t, price);
      if t == Buy && (bestBuy == 0 || price > bestBuy) {
        bestBuy := price;
      } else if t == Sell && (bestSell == 0 || price < bestSell) {
        bestSell := price;
      }
      if t == Buy {
        buyLimits := buyLimits[price := buyLimits[price] + [e]];
      } else {
        sellLimits := sellLimits[price := sellLimits[price] + [e]];
      }
    }

    /** `delete_order(Order*, bool)`: the order leaves the level at its
        price, if that level exists, and an emptied level is dropped. */
    method DeleteOrderFromLimit(t: OrderType, price: Price, id: Id)
      requires Increasing(SideOf(State(), t).tree)
      modifies this
      ensures State() == WithSide(old(State()), t, DeleteFromLimit(SideOf(old(State()), t), t, price, id))
    {
      if t == Buy {
        if price !in buyLimits {
          return;
        }
        buyLimits := buyLimits[price := RemoveId(buyLimits[price], id)];
      } else {
        if price !in sellLimits {
          return;
        }
        sellLimits := sellLimits[price := RemoveId(sellLimits[price], id)];
      }
      CheckForEmptyLimit(t, price);
    }

    /** `delete_order(ID)`: an ACTIVE resting order leaves its level and
        the index; any other id is left alone. */
    method DeleteOrder(id: Id)
      requires Valid(State())
      modifies this
      ensures State() == Cancel(old(State()), id)
      ensures Valid(State())
    {
      CancelKeepsValid(State(), id);
      if id !in idToOrder {
        return;
      }
      var r := idToOrder[id];
      if r.status == Active {
        DeleteOrderFromLimit(r.orderType, r.price, id);
        idToOrder := idToOrder - {id};
      }
    }

    /** `get_order_status`. */
    method GetOrderStatus(id: Id) returns (s: OrderStatus)
      ensures s == StatusOf(State(), id)
      ensures Valid(State()) ==> s == (if id in idToOrder then Active else Deleted)
    {
      if id in idToOrder {
        s := idToOrder[id].status;
      } else {
        s := Deleted;
      }
    }

    /** `get_spread`: `best_sell - best_buy` as a 32-bit unsigned
        subtraction. */
    method GetSpread() returns (r: Price)
      ensures r == Spread(State())
    {
      if bestSell >= bestBuy {
        r := bestSell - bestBuy;
      } else {
        r := 0x1_0000_0000 - (bestBuy - bestSell);
      }
    }

    /** The loop of src/Book.cpp:78-88 (and 102-112): every matched order
        that is FULFILLED leaves the index. */
    method EraseFilledOrders(trades: seq<Trade>)
      modifies this
      ensures State() == old(State()).(idToOrder := EraseFilled(old(idToOrder), trades))
    {
      ghost var idx0 := idToOrder;
      for i := 0 to |trades|
        invariant State() == old(State()).(idToOrder := idToOrder)
        invariant EraseFilled(idToOrder, trades[i..]) == EraseFilled(idx0, trades)
      {
        var matched := trades[i].matchedOrder;
        assert trades[i..][1..] == trades[i + 1..];
        if matched in idToOrder && idToOrder[matched].status == Fulfilled {
          idToOrder := idToOrder - {matched};
        }
      }
      assert trades[|trades|..] == [];
    }

    /** One iteration of `place_order`'s loop: match the incoming order
        against the best level of the other side (`Limit::match_order`,
        which also marks the resting orders it fills FULFILLED), drop the
        filled resting orders from the index, and drop the level if it is
        now empty. Returns the incoming order after the round and the
        round's trades. */
    method MatchBest(o: Incoming) returns (o': Incoming, trades: seq<Trade>)
      requires Increasing(SideOf(State(), Opposite(o.orderType)).tree)
      modifies this
      ensures Matching(State(), o', trades) == MatchRound(old(State()), o)
    {
      var t := Opposite(o.orderType);
      var p := if t == Buy then bestBuy else bestSell;
      GetOrCreateLimit(t, p);
      var level := if t == Buy then buyLimits[p] else sellLimits[p];
      var m := MatchLevel(level, p, o.id, o.volume);
      var k := Consumed(level, p, o.id, o.volume);
      idToOrder := MarkFulfilled(idToOrder, Ids(level[..k]));
      if t == Buy {
        buyLimits := buyLimits[p := m.level];
      } else {
        sellLimits := sellLimits[p := m.level];
      }
      o' := o.(volume := m.remaining,
               status := if o.volume > 0 && m.remaining == 0 then Fulfilled else o.status);
      trades := m.trades;
      EraseFilledOrders(trades);
      CheckForEmptyLimit(t, p);
    }

    /** `place_order`: a zero price or a known id changes nothing;
        otherwise the order trades against the other side while it
        crosses it and is not FULFILLED, and what is left rests. Returns
        the trades in the order they happened. An order with no volume
        that reaches the other side is dropped, where the code as written
        loops forever. */
    method PlaceOrder(id: Id, agentId: Id, t: OrderType, price: Price, volume: Volume)
      returns (trades: seq<Trade>)
      requires Valid(State())
      modifies this
      ensures (State(), trades) == PlaceChecked(old(State()), id, agentId, t, price, volume)
    {
      if price == 0 || id in idToOrder {
        PlaceCheckedIgnores(State(), id, agentId, t, price, volume);
        return [];
      }
      if volume == 0 && (if t == Buy then bestSell != 0 && price >= bestSell
                         else bestBuy != 0 && price <= bestBuy) {
        return [];
      }
      ghost var b0 := State();
      ghost var placed := PlaceChecked(b0, id, agentId, t, price, volume);
      assert placed == Place(b0, id, agentId, t, price, volume);
      var order := Incoming(id, agentId, t, price, volume, Active);
      trades := [];
      ghost var m0 := Matching(State(), order, trades);
      while (if t == Buy then bestSell != 0 && order.price >= bestSell
             else bestBuy != 0 && order.price <= bestBuy)
            && order.status != Fulfilled
        invariant Matchable(Matching(State(), order, trades))
        invariant MatchLoop(Matching(State(), order, trades)) == MatchLoop(m0)
        invariant order.orderType == t && order.id == id
        invariant Increasing(SideOf(State(), t).tree)
        decreases Measure(Matching(State(), order, trades)).0, Measure(Matching(State(), order, trades)).1
      {
        ghost var m := Matching(State(), order, trades);
        ghost var n := LoopStep(m);
        var roundTrades;
        order, roundTrades := MatchBest(order);
        trades := trades + roundTrades;
        assert Matching(State(), order, trades) == n;
      }
      PlaceFinishes(b0, id, agentId, t, price, volume, Matching(State(), order, trades));
      RestOrder(order);
      assert (State(), trades) == placed;
    }

    /** The end of `place_order` (src/Book.cpp:120-128): an incoming order
        that is not FULFILLED is indexed and rests at its price. */
    method RestOrder(o: Incoming)
      requires Increasing(SideOf(State(), o.orderType).tree)
      modifies this
      ensures State() == Finish(Matching(old(State()), o, [])).0
    {
      if o.status != Fulfilled {
        idToOrder := idToOrder[o.id := Resting(o.agentId, o.orderType, o.price, o.status)];
        InsertOrder(o.orderType, o.price, Entry(o.id, o.volume));
      }
    }
  }
}
