/** One price level (src/Limit.h, src/Limit.cpp): a FIFO queue of orders,
    oldest first, with a cached length and total volume.  The C++ class keeps
    the queue as an intrusive doubly-linked list through `head`, `tail` and
    the orders' `prev`/`next`; here it is the sequence `orders`, whose first
    element is `head` and whose last is `tail`. */
module Limits {
  import opened Types
  import opened LevelSpec
  import opened Orders

  /** No order occurs twice. */
  ghost predicate Distinct(s: seq<Order>)
    decreases |s|
  {
    s == [] || (s[0] !in s[1..] && Distinct(s[1..]))
  }

  lemma {:induction false} DistinctAppend(s: seq<Order>, x: Order)
    requires Distinct(s) && x !in s
    ensures Distinct(s + [x])
    decreases |s|
  {
    if s == [] {
      assert [x][1..] == [];
    } else {
      assert (s + [x])[1..] == s[1..] + [x];
      DistinctAppend(s[1..], x);
    }
  }

  /** The position of x in s. */
  function IndexOf<T(==)>(s: seq<T>, x: T): (k: nat)
    requires x in s
    ensures k < |s| && s[k] == x
    ensures forall j :: 0 <= j < k ==> s[j] != x
  {
    if s[0] == x then 0 else 1 + IndexOf(s[1..], x)
  }

  /** The value view of a queue of orders: ids and remaining volumes. */
  ghost function Entries(s: seq<Order>): (es: seq<Entry>)
    reads s
    ensures |es| == |s|
    ensures forall i :: 0 <= i < |s| ==> es[i] == Entry(s[i].id, s[i].volume)
  {
    seq(|s|, i requires 0 <= i < |s| reads s => Entry(s[i].id, s[i].volume))
  }

  /** Entries look at ids and volumes only, so a change of status keeps them. */
  twostate lemma EntriesKept(s: seq<Order>)
    requires forall i :: 0 <= i < |s| ==> s[i].volume == old(s[i].volume)
    ensures Entries(s) == old(Entries(s))
  {
  }

  /** When only the front order of a queue changed, only the front entry
      can have changed. */
  twostate lemma FrontChanged(s: seq<Order>)
    requires s != []
    requires forall i :: 1 <= i < |s| ==> s[i].volume == old(s[i].volume)
    ensures Entries(s) == [Entry(s[0].id, s[0].volume)] + old(Entries(s))[1..]
  {
  }

  /** Removing the k-th order removes the k-th entry. */
  lemma EntriesRemove(s: seq<Order>, k: nat)
    requires k < |s|
    ensures Entries(s[..k] + s[k + 1..]) == Entries(s)[..k] + Entries(s)[k + 1..]
  {
    var t := s[..k] + s[k + 1..];
    var es := Entries(s);
    var ts := Entries(t);
    var rs := es[..k] + es[k + 1..];
    assert |ts| == |rs|;
    forall i | 0 <= i < |t| ensures ts[i] == rs[i] {
      if i < k {
        assert t[i] == s[i] && rs[i] == es[i];
      } else {
        assert t[i] == s[i + 1] && rs[i] == es[i + 1];
      }
    }
  }

  lemma {:induction false} DistinctRemove(s: seq<Order>, k: nat)
    requires k < |s| && Distinct(s)
    ensures Distinct(s[..k] + s[k + 1..])
    ensures forall o :: o in s[..k] + s[k + 1..] ==> o in s && o != s[k]
    decreases k
  {
    var t := s[..k] + s[k + 1..];
    if k == 0 {
      assert t == s[1..];
    } else {
      DistinctRemove(s[1..], k - 1);
      var u := s[1..][..k - 1] + s[1..][k..];
      assert t == [s[0]] + u;
      assert s[1..][k - 1] == s[k] && s[k] in s[1..];
      forall o | o in t ensures o in s && o != s[k] {
        if o != s[0] {
          assert o in u;
        }
      }
    }
  }

  class Limit {
    const price: Price
    var length: nat
    var totalVolume: nat
    /** The queue, oldest (`head`) first. */
    var orders: seq<Order>

    /** `length` and `total_volume` agree with the queue, and no order is
        queued twice. */
    ghost predicate Valid()
      reads this, orders
    {
      && length == |orders|
      && totalVolume == Total(Entries(orders))
      && Distinct(orders)
    }

    /** A new level is empty. */
    constructor (price: Price)
      ensures Valid() && this.price == price && orders == []
      ensures length == 0 && totalVolume == 0
    {
      this.price := price;
      length := 0;
      totalVolume := 0;
      orders := [];
    }

    /** `Limit::is_empty`. */
    predicate IsEmpty()
      reads this, orders
      ensures Valid() ==> (IsEmpty() <==> orders == [])
    {
      length == 0
    }

    /** `Limit::insert_order`: the order goes to the back of the queue; no
        order changes. */
    method InsertOrder(order: Order)
      requires Valid()
      requires order !in orders
      modifies this
      ensures Valid()
      ensures orders == old(orders) + [order]
      ensures Entries(orders) == old(Entries(orders)) + [Entry(order.id, order.volume)]
      ensures length == old(length) + 1 && totalVolume == old(totalVolume) + order.volume
    {
      ghost var es := Entries(orders);
      var e := Entry(order.id, order.volume);
      totalVolume := totalVolume + order.volume;
      length := length + 1;
      DistinctAppend(orders, order);
      orders := orders + [order];
      assert Entries(orders) == es + [e];
      TotalAppend(es, [e]);
      assert Total([e]) == order.volume by {
        assert [e][1..] == [];
      }
    }

    /** `Limit::delete_order`: a null order is ignored; otherwise the order
        leaves the queue, the others keep their order, and it becomes
        DELETED unless it is FULFILLED. */
    method DeleteOrder(order: Order?)
      requires Valid()
      requires order != null ==> order in orders
      modifies this, order
      ensures Valid()
      ensures order == null ==> orders == old(orders) && length == old(length) && totalVolume == old(totalVolume)
      ensures order != null ==>
        var k := IndexOf(old(orders), order);
        && orders == old(orders)[..k] + old(orders)[k + 1..]
        && order !in orders
        && Entries(orders) == old(Entries(orders))[..k] + old(Entries(orders))[k + 1..]
        && order.volume == old(order.volume)
        && order.status == (if old(order.status) == Fulfilled then Fulfilled else Deleted)
        && length == old(length) - 1
        && totalVolume == old(totalVolume) - order.volume
      ensures forall o :: o in orders ==> o.status == old(o.status)
    {
      if order == null {
        return;
      }
      ghost var os := orders;
      ghost var es := Entries(orders);
      var k := IndexOf(orders, order);
      if order.status != Fulfilled {
        order.SetStatus(Deleted);
      }
      TotalRemove(es, k);
      totalVolume := totalVolume - order.volume;
      length := length - 1;
      orders := orders[..k] + orders[k + 1..];
      EntriesKept(os);
      EntriesRemove(os, k);
      DistinctRemove(os, k);
      assert Entries(orders) == es[..k] + es[k + 1..];
    }

    /** One round of `Limit::match_order`: the head order and the incoming
        order are both filled for the smaller of their two volumes, and the
        level's total drops by as much. */
    method FillHead(order: Order) returns (fillVolume: Volume)
      requires Valid()
      requires orders != [] && order !in orders && order.volume > 0
      modifies this, orders[0], order
      ensures Valid() && orders == old(orders)
      ensures var es := old(Entries(orders));
        && fillVolume == Min(es[0].volume, old(order.volume))
        && Entries(orders) == [Entry(es[0].id, es[0].volume - fillVolume)] + es[1..]
      ensures order.volume == old(order.volume) - fillVolume
      ensures order.status == (if order.volume == 0 then Fulfilled else old(order.status))
      ensures orders[0].status == (if orders[0].volume == 0 then Fulfilled else old(orders[0].status))
    {
      label Start:
      ghost var es := Entries(orders);
      var first := orders[0];
      fillVolume := Min(first.volume, order.volume);
      assert orders == [first] + orders[1..];
      assert first !in orders[1..];
      var ok := first.Fill(fillVolume);
      ok := order.Fill(fillVolume);
      totalVolume := totalVolume - fillVolume;
      FrontChanged@Start(orders);
      TotalAppend([Entry(first.id, first.volume)], es[1..]);
      TotalAppend([es[0]], es[1..]);
    }

    /** One round of the loop of `Limit::match_order`: fill the head and
        the incoming order, record the trade, and drop the head if that
        filled it.  This is one step of `MatchLevel`. */
    method MatchStep(order: Order) returns (trade: Trade, ghost removed: bool)
      requires Valid()
      requires orders != [] && order !in orders && order.volume > 0
      modifies this, orders[0], order
      ensures Valid() && order !in orders
      ensures removed ==> orders == old(orders)[1..] && old(orders)[0].status == Fulfilled && old(orders)[0].volume == 0
      ensures !removed ==> orders == old(orders) && order.volume == 0
      ensures !removed ==> orders[0].status == old(orders[0].status)
      ensures var r := MatchLevel(Entries(orders), price, order.id, order.volume);
        MatchLevel(old(Entries(orders)), price, order.id, old(order.volume)) == r.(trades := [trade] + r.trades)
      ensures order.status == (if order.volume == 0 then Fulfilled else old(order.status))
    {
      ghost var es := Entries(orders);
      ghost var rem := order.volume;
      var fillVolume := FillHead(order);
      trade := Trade(order.id, orders[0].id, price, fillVolume);
      var headFilled := orders[0].IsFulfilled();
      removed := headFilled;
      if headFilled {
        DeleteOrder(orders[0]);
        assert Entries(orders) == es[1..];
      } else {
        assert Entries(orders) == [es[0].(volume := es[0].volume - fillVolume)] + es[1..];
      }
      MatchLevelHead(es, price, order.id, rem, fillVolume, Entries(orders), order.volume, trade);
    }

    /** One round of the loop of `Limit::match_order` seen from the loop:
        of the orders `os0` the level held when matching began, whose
        statuses were `ss0`, the first `gone` have left FULFILLED and the
        others are still queued with their status; the round keeps that
        true, with one more gone when it removes the head. */
    method MatchRound(order: Order, ghost os0: seq<Order>, ghost ss0: seq<OrderStatus>, ghost gone: nat)
      returns (trade: Trade, ghost gone': nat)
      requires Valid() && orders != [] && order !in orders && order.volume > 0
      requires gone + |orders| == |os0| == |ss0| && orders == os0[gone..]
      requires forall i :: 0 <= i < gone ==>
        os0[i] !in orders && os0[i].status == Fulfilled && os0[i].volume == 0
      requires forall i :: gone <= i < |os0| ==> os0[i].status == ss0[i]
      modifies this, orders[0], order
      ensures Valid() && order !in orders
      ensures gone' + |orders| == |os0| && orders == os0[gone'..]
      ensures forall i :: 0 <= i < gone' ==>
        os0[i] !in orders && os0[i].status == Fulfilled && os0[i].volume == 0
      ensures forall i :: gone' <= i < |os0| ==> os0[i].status == ss0[i]
      ensures gone' > gone || (gone' == gone && order.volume < old(order.volume))
      ensures var r := MatchLevel(Entries(orders), price, order.id, order.volume);
        MatchLevel(old(Entries(orders)), price, order.id, old(order.volume)) == r.(trades := [trade] + r.trades)
      ensures order.status == (if order.volume == 0 then Fulfilled else old(order.status))
    {
      ghost var before := orders;
      ghost var removed;
      trade, removed := MatchStep(order);
      if removed {
        assert os0[gone + 1..] == os0[gone..][1..];
        forall i | 0 <= i < gone + 1
          ensures os0[i] !in orders && os0[i].status == Fulfilled && os0[i].volume == 0
        {
          if i < gone {
            assert os0[i] !in before && os0[i] != order;
          } else {
            assert os0[i] == before[0];
          }
        }
        forall i | gone + 1 <= i < |os0| ensures os0[i].status == ss0[i] {
          assert os0[i] == before[i - gone] && before[0] !in before[1..];
        }
        gone' := gone + 1;
      } else {
        forall i | 0 <= i < gone
          ensures os0[i] !in orders && os0[i].status == Fulfilled && os0[i].volume == 0
        {
          assert os0[i] !in before && os0[i] != order;
        }
        forall i | gone < i < |os0| ensures os0[i].status == ss0[i] {
          assert os0[i] == before[i - gone] && before[0] !in before[1..];
        }
        gone' := gone;
      }
    }

    /** `Limit::match_order`: matching the incoming order against this level
        is `MatchLevel` on the level's entries; the orders it fills completely
        leave the front of the queue FULFILLED, the others keep their
        status. */
    method MatchOrder(order: Order) returns (trades: seq<Trade>)
      requires Valid()
      requires order !in orders
      modifies this, orders, order
      ensures Valid()
      ensures var m := MatchLevel(old(Entries(orders)), price, order.id, old(order.volume));
        Entries(orders) == m.level && order.volume == m.remaining && trades == m.trades
      ensures |orders| <= |old(orders)| && orders == old(orders)[|old(orders)| - |orders|..]
      ensures forall i :: 0 <= i < |old(orders)| - |orders| ==>
        old(orders)[i].status == Fulfilled && old(orders)[i].volume == 0
      ensures forall i :: |old(orders)| - |orders| <= i < |old(orders)| ==>
        old(orders)[i].status == old(orders[i].status)
      ensures order.status == (if old(order.volume) > 0 && order.volume == 0 then Fulfilled else old(order.status))
    {
      ghost var os0 := orders;
      ghost var ss0 := seq(|os0|, i requires 0 <= i < |os0| reads os0 => os0[i].status);
      ghost var m := MatchLevel(Entries(orders), price, order.id, order.volume);
      ghost var v0 := order.volume;
      ghost var s0 := order.status;
      ghost var gone: nat := 0;
      trades := [];
      while length > 0 && !order.IsFulfilled()
        invariant Valid()
        invariant order !in orders
        invariant gone + |orders| == |os0| == |ss0| && orders == os0[gone..]
        invariant forall i :: 0 <= i < gone ==>
          os0[i] !in orders && os0[i].status == Fulfilled && os0[i].volume == 0
        invariant forall i :: gone <= i < |os0| ==> os0[i].status == ss0[i]
        invariant order.status == (if v0 > 0 && order.volume == 0 then Fulfilled else s0)
        invariant var r := MatchLevel(Entries(orders), price, order.id, order.volume);
          m == r.(trades := trades + r.trades)
        decreases |orders|, order.volume
      {
        ghost var done := trades;
        var trade;
        trade, gone := MatchRound(order, os0, ss0, gone);
        trades := trades + [trade];
        ghost var r := MatchLevel(Entries(orders), price, order.id, order.volume);
        AppendAssoc(done, [trade], r.trades);
      }
    }
  }
}
