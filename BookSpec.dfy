/** The order book of src/Book.cpp as a value: two sides of price levels,
    the id index, and each of `Book`'s operations as a function on that
    value.  The class `Books.Book` is proved to compute these functions. */
module BookSpec {
  import opened Types
  import opened LevelSpec
  import opened Trees

  /** What `id_to_order` knows of a resting order besides its remaining
      volume, which its level holds. */
  datatype Resting = Resting(agentId: Id, orderType: OrderType, price: Price, status: OrderStatus)

  /** One side of the book: price to level (`buy_limits`), the ordered set of
      those prices (`buy_tree`), and the cached best price (`best_buy`),
      where 0 means the side is empty. */
  datatype Side = Side(limits: map<Price, seq<Entry>>, tree: seq<Price>, best: Price)

  datatype BookState = BookState(buys: Side, sells: Side, idToOrder: map<Id, Resting>)

  /** The incoming order while it is being matched. */
  datatype Incoming = Incoming(id: Id, agentId: Id, orderType: OrderType, price: Price,
                               volume: Volume, status: OrderStatus)

  function SideOf(b: BookState, t: OrderType): Side
  {
    if t == Buy then b.buys else b.sells
  }

  function WithSide(b: BookState, t: OrderType, s: Side): BookState
  {
    if t == Buy then b.(buys := s) else b.(sells := s)
  }

  /** The best price of a side as its ordered price set gives it: the
      highest bid, the lowest ask, or 0 when there is none. */
  function BestOf(tree: seq<Price>, t: OrderType): Price
  {
    if tree == [] then 0 else if t == Buy then tree[|tree| - 1] else tree[0]
  }

  // ---------------------------------------------------------------------
  // Invariants

  /** A side is well formed: the tree is ordered and holds exactly the
      prices of the levels, no level is empty or at price 0, and `best` is
      the best of those prices. */
  ghost predicate SideValid(s: Side, t: OrderType)
  {
    && Increasing(s.tree)
    && (forall p :: p in s.limits <==> p in s.tree)
    && 0 !in s.limits
    && (forall p :: p in s.limits ==> s.limits[p] != [] && DistinctIds(s.limits[p]))
    && s.best == BestOf(s.tree, t)
  }

  /** Every indexed order is ACTIVE and queued at the level its type and
      price name. */
  ghost predicate IndexedRest(b: BookState)
  {
    forall id :: id in b.idToOrder ==>
      var r := b.idToOrder[id];
      && r.status == Active
      && r.price in SideOf(b, r.orderType).limits
      && id in Ids(SideOf(b, r.orderType).limits[r.price])
  }

  /** Every queued order of side t is indexed with that type and price. */
  ghost predicate LevelsIndexed(b: BookState, t: OrderType)
  {
    var s := SideOf(b, t);
    forall p, i :: p in s.limits && 0 <= i < |s.limits[p]| ==>
      var id := s.limits[p][i].id;
      id in b.idToOrder && b.idToOrder[id].orderType == t && b.idToOrder[id].price == p
  }

  /** The book is not crossed: the best bid is below the best ask when both
      sides have orders. */
  ghost predicate Uncrossed(b: BookState)
  {
    b.buys.best == 0 || b.sells.best == 0 || b.buys.best < b.sells.best
  }

  ghost predicate Valid(b: BookState)
  {
    && SideValid(b.buys, Buy) && SideValid(b.sells, Sell)
    && IndexedRest(b) && LevelsIndexed(b, Buy) && LevelsIndexed(b, Sell)
    && Uncrossed(b)
  }

  /** The book a fresh `Book` starts with. */
  function EmptyBook(): (b: BookState)
    ensures Valid(b)
  {
    BookState(Side(map[], [], 0), Side(map[], [], 0), map[])
  }

  // ---------------------------------------------------------------------
  // One side

  /** `Book::update_best_buy` / `update_best_sell`: the best price becomes
      the highest (buy) or lowest (sell) price of the tree, or 0. */
  function UpdateBest(s: Side, t: OrderType): (r: Side)
    requires Increasing(s.tree)
    ensures r.limits == s.limits && r.tree == s.tree
    ensures r.tree == [] ==> r.best == 0
    ensures r.tree != [] ==> r.best in r.tree
    ensures forall q :: q in r.tree ==> if t == Buy then q <= r.best else r.best <= q
  {
    var r := s.(best := BestOf(s.tree, t));
    assert forall q :: q in r.tree ==> r.tree[0] <= q <= r.tree[|r.tree| - 1] by {
      forall q | q in r.tree ensures r.tree[0] <= q <= r.tree[|r.tree| - 1] {
        Ends(r.tree, q);
      }
    }
    r
  }

  /** `Book::get_or_create_limit`: the level at `price`, created empty (and
      its price added to the tree) when there is none; `best` is left
      alone. */
  function GetOrCreateLimit(s: Side, price: Price): (r: Side)
    requires Increasing(s.tree)
    ensures Increasing(r.tree) && price in r.limits && r.best == s.best
    ensures price in s.limits ==> r == s
    ensures price !in s.limits ==>
      && r.limits == s.limits[price := []]
      && (forall q :: q in r.tree <==> q in s.tree || q == price)
  {
    if price in s.limits then s
    else Side(s.limits[price := []], Insert(s.tree, price), s.best)
  }

  /** `Book::check_for_empty_buy_limit` / `check_for_empty_sell_limit`: an
      empty level at `price` leaves the map and the tree, and the best price
      is recomputed when it was that level's. */
  function CheckForEmptyLimit(s: Side, t: OrderType, price: Price): (r: Side)
    requires Increasing(s.tree)
    ensures Increasing(r.tree)
    ensures price in s.limits && s.limits[price] == [] ==>
      && r.limits == s.limits - {price}
      && (forall q :: q in r.tree <==> q in s.tree && q != price)
      && r.best == (if price == s.best then BestOf(r.tree, t) else s.best)
    ensures !(price in s.limits && s.limits[price] == []) ==> r == s
  {
    if price in s.limits && s.limits[price] == [] then
      var s1 := Side(s.limits - {price}, Remove(s.tree, price), s.best);
      if price == s.best then UpdateBest(s1, t) else s1
    else s
  }

  /** `Book::insert_order`: the order joins the back of the level at its
      price (created if needed), and that price becomes the best when it is
      better than the current best or the side was empty. */
  function InsertOrder(s: Side, t: OrderType, price: Price, e: Entry): (r: Side)
    requires Increasing(s.tree)
    ensures Increasing(r.tree) && price in r.limits
    ensures r.limits[price] == (if price in s.limits then s.limits[price] else []) + [e]
    ensures forall q :: q != price ==> (q in r.limits <==> q in s.limits)
    ensures forall q :: q != price && q in s.limits ==> r.limits[q] == s.limits[q]
    ensures forall q :: q in s.tree ==> q in r.tree
    ensures forall q :: q in r.tree ==> q in s.tree || q == price
    ensures price !in s.limits ==> price in r.tree
    ensures r.best == if s.best == 0 || (if t == Buy then price > s.best else price < s.best) then price else s.best
  {
    var s1 := GetOrCreateLimit(s, price);
    var best := if t == Buy then (if s1.best == 0 || price > s1.best then price else s1.best)
                else (if s1.best == 0 || price < s1.best then price else s1.best);
    s1.(best := best, limits := s1.limits[price := s1.limits[price] + [e]])
  }

  // ---------------------------------------------------------------------
  // The index

  /** Every indexed order is ACTIVE. */
  ghost predicate AllActive(idx: map<Id, Resting>)
  {
    forall id :: id in idx ==> idx[id].status == Active
  }

  /** The FULFILLED entries of the index are exactly those whose id is in
      `ids`. */
  ghost predicate FulfilledExactly(idx: map<Id, Resting>, ids: seq<Id>)
  {
    forall id :: id in idx ==> (idx[id].status == Fulfilled <==> id in ids)
  }

  /** The effect on the index of `Limit::match_order` filling resting
      orders: each order whose id is in `ids` is FULFILLED (the index and
      the level share the order objects in the C++ code). When every
      indexed order was ACTIVE, the FULFILLED entries afterwards are
      exactly the used-up ones, which is what the erase loop of
      src/Book.cpp:78-88 tests. */
  function MarkFulfilled(idx: map<Id, Resting>, ids: seq<Id>): (r: map<Id, Resting>)
    ensures r.Keys == idx.Keys
    ensures forall id :: id in r ==>
      r[id] == if id in ids then idx[id].(status := Fulfilled) else idx[id]
    ensures AllActive(idx) ==> FulfilledExactly(r, ids)
  {
    map id | id in idx :: if id in ids then idx[id].(status := Fulfilled) else idx[id]
  }

  /** The loop of src/Book.cpp:78-88: for each trade, the order it matched
      leaves the index if it is there and FULFILLED. */
  function EraseFilled(idx: map<Id, Resting>, trades: seq<Trade>): (r: map<Id, Resting>)
    ensures r.Keys <= idx.Keys
    ensures forall id :: id in r ==> r[id] == idx[id]
    decreases |trades|
  {
    if trades == [] then idx
    else
      var id := trades[0].matchedOrder;
      var idx1 := if id in idx && idx[id].status == Fulfilled then idx - {id} else idx;
      EraseFilled(idx1, trades[1..])
  }

  function MatchedIds(trades: seq<Trade>): (ids: seq<Id>)
    ensures |ids| == |trades|
    ensures forall i :: 0 <= i < |trades| ==> ids[i] == trades[i].matchedOrder
  {
    seq(|trades|, i requires 0 <= i < |trades| => trades[i].matchedOrder)
  }

  /** Erasing FULFILLED matched orders one trade at a time removes exactly
      the matched ids that were FULFILLED to begin with, and keeps every
      other entry as it was. */
  lemma {:induction false} EraseFilledRemoves(idx: map<Id, Resting>, trades: seq<Trade>)
    ensures var r := EraseFilled(idx, trades);
      && (forall id :: id in r <==> id in idx && !(id in MatchedIds(trades) && idx[id].status == Fulfilled))
      && (forall id :: id in r ==> r[id] == idx[id])
    decreases |trades|
  {
    if trades != [] {
      var id := trades[0].matchedOrder;
      var idx1 := if id in idx && idx[id].status == Fulfilled then idx - {id} else idx;
      EraseFilledRemoves(idx1, trades[1..]);
      assert forall x :: x in MatchedIds(trades) <==> x == id || x in MatchedIds(trades[1..]) by {
        assert MatchedIds(trades) == [id] + MatchedIds(trades[1..]);
      }
    }
  }

  // ---------------------------------------------------------------------
  // Matching an incoming order

  /** The incoming order's price reaches the best price of the other side
      (the first two conditions of the loops at src/Book.cpp:69 and 94). */
  predicate Crosses(b: BookState, t: OrderType, price: Price)
  {
    if t == Buy then b.sells.best != 0 && price >= b.sells.best
    else b.buys.best != 0 && price <= b.buys.best
  }

  /** The state of `place_order`'s loop: the book, the incoming order, and
      the trades so far. */
  datatype Matching = Matching(book: BookState, order: Incoming, trades: seq<Trade>)

  /** One iteration of the loop of `Book::place_order` (src/Book.cpp:69-92
      for a buy, 94-116 for a sell): match against the best level of the
      other side, drop the filled resting orders from the index, and drop
      the level if it is now empty. */
  function MatchRound(b: BookState, o: Incoming): (r: Matching)
    requires Increasing(SideOf(b, Opposite(o.orderType)).tree)
    ensures r.order == o.(volume := r.order.volume, status := r.order.status)
    ensures r.order.volume <= o.volume && TradedVolume(r.trades) == o.volume - r.order.volume
    ensures SideOf(r.book, o.orderType) == SideOf(b, o.orderType)
  {
    var t := Opposite(o.orderType);
    var p := SideOf(b, t).best;
    var s1 := GetOrCreateLimit(SideOf(b, t), p);
    var level := s1.limits[p];
    var m := MatchLevel(level, p, o.id, o.volume);
    MatchLevelTakerConserves(level, p, o.id, o.volume);
    var k := Consumed(level, p, o.id, o.volume);
    var idx := EraseFilled(MarkFulfilled(b.idToOrder, Ids(level[..k])), m.trades);
    var s2 := s1.(limits := s1.limits[p := m.level]);
    var s3 := CheckForEmptyLimit(s2, t, p);
    var o1 := o.(volume := m.remaining,
                 status := if o.volume > 0 && m.remaining == 0 then Fulfilled else o.status);
    Matching(WithSide(b, t, s3).(idToOrder := idx), o1, m.trades)
  }

  /** Whether the loop of `place_order` runs another round. */
  predicate Continues(m: Matching)
  {
    Crosses(m.book, m.order.orderType, m.order.price) && m.order.status != Fulfilled
  }

  /** What the loop promises at every round: the book is valid, the incoming
      order is not in it, and it has volume left unless it is FULFILLED or
      does not cross. */
  ghost predicate Matchable(m: Matching)
  {
    && Valid(m.book)
    && m.order.id !in m.book.idToOrder
    && m.order.status != Deleted
    && (m.order.status == Fulfilled ==> m.order.volume == 0)
    && (m.order.volume > 0 || !Continues(m))
  }

  /** How many orders a round takes off the front of the level. */
  function Consumed(level: seq<Entry>, p: Price, id: Id, v: Volume): (k: nat)
    ensures k <= |level| && k + |MatchLevel(level, p, id, v).level| == |level|
  {
    |level| - |MatchLevel(level, p, id, v).level|
  }

  /** What one round does to the level it matches against: the level keeps
      its k youngest orders, with the same ids, and every one of the k
      removed orders was matched by a trade. */
  lemma RoundLevel(level: seq<Entry>, p: Price, id: Id, v: Volume)
    requires level != [] && v > 0 && DistinctIds(level)
    ensures var m := MatchLevel(level, p, id, v);
      var k := |level| - |m.level|;
      && |m.level| <= |level|
      && (m.level == [] || m.remaining == 0)
      && Ids(m.level) == Ids(level)[k..]
      && DistinctIds(m.level)
      && (forall i :: 0 <= i < k ==> level[i].id in MatchedIds(m.trades))
  {
    var m := MatchLevel(level, p, id, v);
    MatchLevelSuffix(level, p, id, v);
    MatchLevelTrades(level, p, id, v);
    var k := |level| - |m.level|;
    SuffixIds(level, m.level, k);
    forall i | 0 <= i < k ensures level[i].id in MatchedIds(m.trades) {
      assert MatchedIds(m.trades)[i] == level[i].id;
    }
    SuffixDistinct(level, m.level, k);
  }

  /** The index after one round: the removed orders are gone and every
      other entry is untouched, provided every indexed order was ACTIVE and
      every removed order was matched by a trade. */
  lemma RoundIndex(idx: map<Id, Resting>, removed: seq<Id>, trades: seq<Trade>)
    requires forall id :: id in idx ==> idx[id].status == Active
    requires forall x :: x in removed ==> x in MatchedIds(trades)
    ensures IndexWithout(EraseFilled(MarkFulfilled(idx, removed), trades), idx, removed)
  {
    EraseFilledRemoves(MarkFulfilled(idx, removed), trades);
  }

  /** A side whose level at p is replaced by a non-empty level without
      repeated ids: only that level changes, and the side stays well
      formed. */
  lemma SideKept(s: Side, t: OrderType, p: Price, level: seq<Entry>)
    requires SideValid(s, t) && p in s.limits && level != [] && DistinctIds(level)
    ensures var s3 := CheckForEmptyLimit(s.(limits := s.limits[p := level]), t, p);
      && s3 == s.(limits := s.limits[p := level])
      && SideValid(s3, t)
      && LevelReplaced(s, s3, p, level)
  {
  }

  /** The side matched against after a round that empties its best level:
      the level leaves the side, which stays well formed, and the new best
      price lies strictly beyond the old one, away from the incoming order. */
  lemma SideEmptied(s: Side, t: OrderType)
    requires SideValid(s, t) && s.best != 0
    ensures var s3 := CheckForEmptyLimit(s.(limits := s.limits[s.best := []]), t, s.best);
      && SideValid(s3, t)
      && s3.limits == s.limits - {s.best}
      && |s3.tree| == |s.tree| - 1
      && (s3.best == 0 || (if t == Buy then s3.best < s.best else s3.best > s.best))
      && LevelReplaced(s, s3, s.best, [])
  {
    var p := s.best;
    assert p in s.tree;
    var s2 := s.(limits := s.limits[p := []]);
    var u := Remove(s.tree, p);
    assert s2.limits - {p} == s.limits - {p};
    var s3 := Side(s.limits - {p}, u, BestOf(u, t));
    assert CheckForEmptyLimit(s2, t, p) == s3;
    SideWithout(s, t);
  }

  /** A side without its best level, with the best recomputed. */
  lemma SideWithout(s: Side, t: OrderType)
    requires SideValid(s, t) && s.best != 0
    ensures var u := Remove(s.tree, s.best);
      && SideValid(Side(s.limits - {s.best}, u, BestOf(u, t)), t)
      && |u| == |s.tree| - 1
      && (u == [] || (if t == Buy then BestOf(u, t) < s.best else BestOf(u, t) > s.best))
  {
    assert s.best in s.tree;
    BestBeyond(s.tree, t);
  }

  /** Once the best price leaves an ordered price set, the next best lies
      strictly beyond it. */
  lemma BestBeyond(tree: seq<Price>, t: OrderType)
    requires Increasing(tree) && tree != []
    ensures var u := Remove(tree, BestOf(tree, t));
      u == [] || (if t == Buy then BestOf(u, t) < BestOf(tree, t) else BestOf(u, t) > BestOf(tree, t))
  {
    var p := BestOf(tree, t);
    var u := Remove(tree, p);
    if u != [] {
      var q := BestOf(u, t);
      assert q in u;
      Ends(tree, q);
    }
  }

  /** Side s3 is side s with the level at p replaced by nl, or dropped
      when nl is empty. */
  ghost predicate LevelReplaced(s: Side, s3: Side, p: Price, nl: seq<Entry>)
  {
    && (forall q :: q != p ==> (q in s3.limits <==> q in s.limits))
    && (forall q :: q != p && q in s.limits ==> s3.limits[q] == s.limits[q])
    && (p in s3.limits <==> nl != [])
    && (nl != [] ==> s3.limits[p] == nl)
  }

  /** The index after a round is the old one without the removed ids. */
  ghost predicate IndexWithout(idx: map<Id, Resting>, old_: map<Id, Resting>, removed: seq<Id>)
  {
    && (forall id :: id in idx <==> id in old_ && id !in removed)
    && (forall id :: id in idx ==> idx[id] == old_[id])
  }

  /** An id of a level is among its first k or among the rest. */
  lemma IdsSplit(level: seq<Entry>, k: nat, id: Id)
    requires k <= |level| && id in Ids(level)
    ensures id in Ids(level[..k]) || id in Ids(level)[k..]
  {
    var i :| 0 <= i < |level| && Ids(level)[i] == id;
    if i < k {
      assert Ids(level[..k])[i] == id;
    } else {
      assert Ids(level)[k..][i - k] == id;
    }
  }

  /** After a round every indexed order still rests where the index says. */
  lemma RoundIndexedRest(b: BookState, nb: BookState, t: OrderType, k: nat, nl: seq<Entry>)
    requires IndexedRest(b)
    requires var s := SideOf(b, t);
      && s.best in s.limits && k <= |s.limits[s.best]|
      && Ids(nl) == Ids(s.limits[s.best])[k..]
      && LevelReplaced(s, SideOf(nb, t), s.best, nl)
      && IndexWithout(nb.idToOrder, b.idToOrder, Ids(s.limits[s.best][..k]))
    requires SideOf(nb, Opposite(t)) == SideOf(b, Opposite(t))
    ensures IndexedRest(nb)
  {
    var s := SideOf(b, t);
    var p := s.best;
    var level := s.limits[p];
    forall id | id in nb.idToOrder
      ensures var r := nb.idToOrder[id];
        && r.status == Active
        && r.price in SideOf(nb, r.orderType).limits
        && id in Ids(SideOf(nb, r.orderType).limits[r.price])
    {
      var r := nb.idToOrder[id];
      assert r == b.idToOrder[id];
      if r.orderType == t && r.price == p {
        IdsSplit(level, k, id);
        assert id in Ids(nl);
      } else if r.orderType != t {
        assert r.orderType == Opposite(t);
      }
    }
  }

  /** After a round every order queued on side t is still indexed. */
  lemma RoundLevelsIndexed(b: BookState, nb: BookState, t: OrderType, k: nat, nl: seq<Entry>)
    requires LevelsIndexed(b, t)
    requires var s := SideOf(b, t);
      && s.best in s.limits && k <= |s.limits[s.best]| && DistinctIds(s.limits[s.best])
      && Ids(nl) == Ids(s.limits[s.best])[k..]
      && LevelReplaced(s, SideOf(nb, t), s.best, nl)
      && IndexWithout(nb.idToOrder, b.idToOrder, Ids(s.limits[s.best][..k]))
    ensures LevelsIndexed(nb, t)
  {
    var s := SideOf(b, t);
    var s3 := SideOf(nb, t);
    var p := s.best;
    var level := s.limits[p];
    forall q, i | q in s3.limits && 0 <= i < |s3.limits[q]|
      ensures var id := s3.limits[q][i].id;
        id in nb.idToOrder && nb.idToOrder[id].orderType == t && nb.idToOrder[id].price == q
    {
      var id := s3.limits[q][i].id;
      if q == p {
        assert id == Ids(nl)[i] == level[k + i].id;
      } else {
        assert id == s.limits[q][i].id;
      }
    }
  }

  /** After a round every order queued on the side that did not trade is
      still indexed: the removed ids were all of the other type. */
  lemma RoundOtherIndexed(b: BookState, nb: BookState, t: OrderType, k: nat)
    requires LevelsIndexed(b, t) && LevelsIndexed(b, Opposite(t))
    requires var s := SideOf(b, t);
      && s.best in s.limits && k <= |s.limits[s.best]|
      && IndexWithout(nb.idToOrder, b.idToOrder, Ids(s.limits[s.best][..k]))
    requires SideOf(nb, Opposite(t)) == SideOf(b, Opposite(t))
    ensures LevelsIndexed(nb, Opposite(t))
  {
    var s := SideOf(b, t);
    var level := s.limits[s.best];
    var u := Opposite(t);
    var s3 := SideOf(nb, u);
    forall q, i | q in s3.limits && 0 <= i < |s3.limits[q]|
      ensures var id := s3.limits[q][i].id;
        id in nb.idToOrder && nb.idToOrder[id].orderType == u && nb.idToOrder[id].price == q
    {
      var id := s3.limits[q][i].id;
      assert id in b.idToOrder && b.idToOrder[id].orderType == u;
    }
  }

  /** The book after one round, in terms of what the round did to the
      best level of side t: it keeps the orders from position k on (nl), and
      the index loses the ids of the first k. The book stays valid, the
      other side is untouched, and side t's best moves away from the other
      side, leaving the tree when the level empties. */
  lemma RoundBook(b: BookState, t: OrderType, k: nat, nl: seq<Entry>, idx: map<Id, Resting>)
    requires Valid(b) && SideOf(b, t).best != 0
    requires var s := SideOf(b, t);
      && s.best in s.limits && k <= |s.limits[s.best]|
      && Ids(nl) == Ids(s.limits[s.best])[k..] && DistinctIds(nl)
      && IndexWithout(idx, b.idToOrder, Ids(s.limits[s.best][..k]))
    ensures var s := SideOf(b, t);
      var s3 := CheckForEmptyLimit(s.(limits := s.limits[s.best := nl]), t, s.best);
      var nb := WithSide(b, t, s3).(idToOrder := idx);
      && Valid(nb)
      && SideOf(nb, Opposite(t)) == SideOf(b, Opposite(t))
      && (nl == [] ==> |s3.tree| < |s.tree|)
      && (s3.best == 0 || (if t == Buy then s3.best <= s.best else s3.best >= s.best))
  {
    var s := SideOf(b, t);
    var s3 := CheckForEmptyLimit(s.(limits := s.limits[s.best := nl]), t, s.best);
    var nb := WithSide(b, t, s3).(idToOrder := idx);
    if nl == [] {
      SideEmptied(s, t);
    } else {
      SideKept(s, t, s.best, nl);
    }
    assert SideOf(nb, t) == s3;
    assert SideOf(nb, Opposite(t)) == SideOf(b, Opposite(t));
    RoundIndexedRest(b, nb, t, k, nl);
    RoundLevelsIndexed(b, nb, t, k, nl);
    RoundOtherIndexed(b, nb, t, k);
  }

  /** One round of `place_order`'s loop keeps the book valid; it leaves
      the incoming order's own side alone and only removes ids from the
      index, keeping the other entries as they were. */
  lemma RoundValid(b: BookState, o: Incoming)
    requires Valid(b) && SideOf(b, Opposite(o.orderType)).best != 0 && o.volume > 0
    ensures var r := MatchRound(b, o);
      && Valid(r.book)
      && SideOf(r.book, o.orderType) == SideOf(b, o.orderType)
  {
    var t := Opposite(o.orderType);
    var s := SideOf(b, t);
    var p := s.best;
    assert p in s.tree;
    var level := s.limits[p];
    var m := MatchLevel(level, p, o.id, o.volume);
    RoundLevel(level, p, o.id, o.volume);
    var k := Consumed(level, p, o.id, o.volume);
    var idx := EraseFilled(MarkFulfilled(b.idToOrder, Ids(level[..k])), m.trades);
    RoundRemoves(b.idToOrder, level, p, o.id, o.volume);
    RoundBook(b, t, k, m.level, idx);
    MatchRoundIs(b, o);
    assert Opposite(t) == o.orderType;
  }

  /** One round only removes ids from the index, and keeps the other
      entries as they were. */
  lemma RoundIndexKept(b: BookState, o: Incoming)
    requires Valid(b) && SideOf(b, Opposite(o.orderType)).best != 0 && o.volume > 0
    ensures var r := MatchRound(b, o);
      && r.book.idToOrder.Keys <= b.idToOrder.Keys
      && (forall x :: x in r.book.idToOrder ==> r.book.idToOrder[x] == b.idToOrder[x])
  {
    var t := Opposite(o.orderType);
    var s := SideOf(b, t);
    var p := s.best;
    assert p in s.tree;
    var level := s.limits[p];
    RoundRemoves(b.idToOrder, level, p, o.id, o.volume);
    MatchRoundIs(b, o);
  }

  /** What one round does to the incoming order and the side it trades
      against: only its volume and status change, the trades take exactly
      the volume it loses, all at the other side's best price, and either
      that price level leaves the side or the order is filled; the side's
      best moves away from the incoming order. */
  lemma RoundOrder(b: BookState, o: Incoming)
    requires var t := Opposite(o.orderType);
      SideValid(SideOf(b, t), t) && SideOf(b, t).best != 0 && o.volume > 0
    ensures var t := Opposite(o.orderType);
      var p := SideOf(b, t).best;
      var r := MatchRound(b, o);
      && r.order == o.(volume := r.order.volume, status := r.order.status)
      && r.order.volume <= o.volume
      && TradedVolume(r.trades) == o.volume - r.order.volume
      && r.order.status == (if r.order.volume == 0 then Fulfilled else o.status)
      && (forall i :: 0 <= i < |r.trades| ==> r.trades[i].order == o.id && r.trades[i].price == p)
      && (|SideOf(r.book, t).tree| < |SideOf(b, t).tree| || r.order.volume == 0)
      && (SideOf(r.book, t).best == 0 || NoBetter(o.orderType, SideOf(r.book, t).best, p))
  {
    var t := Opposite(o.orderType);
    var s := SideOf(b, t);
    var p := s.best;
    assert p in s.tree;
    var level := s.limits[p];
    var m := MatchLevel(level, p, o.id, o.volume);
    RoundLevel(level, p, o.id, o.volume);
    MatchLevelTrades(level, p, o.id, o.volume);
    MatchLevelTakerConserves(level, p, o.id, o.volume);
    if m.level == [] {
      SideEmptied(s, t);
    } else {
      SideKept(s, t, p, m.level);
    }
    MatchRoundIs(b, o);
    assert SideOf(MatchRound(b, o).book, t) == CheckForEmptyLimit(s.(limits := s.limits[p := m.level]), t, p);
  }

  /** Volume is conserved across the book in one round: the trades carry
      exactly what the best level of the other side lost (all of it when
      that level leaves the side), and every other level of that side is
      untouched. */
  lemma RoundConserves(b: BookState, o: Incoming)
    requires var t := Opposite(o.orderType);
      SideValid(SideOf(b, t), t) && SideOf(b, t).best != 0
    ensures var t := Opposite(o.orderType);
      var s := SideOf(b, t);
      var p := s.best;
      var r := MatchRound(b, o);
      var s' := SideOf(r.book, t);
      && p in s.limits
      && TradedVolume(r.trades) == Total(s.limits[p]) - (if p in s'.limits then Total(s'.limits[p]) else 0)
      && (forall q :: q != p ==> (q in s'.limits <==> q in s.limits))
      && (forall q :: q != p && q in s.limits ==> s'.limits[q] == s.limits[q])
  {
    var t := Opposite(o.orderType);
    var s := SideOf(b, t);
    var p := s.best;
    assert p in s.tree;
    var m := MatchLevel(s.limits[p], p, o.id, o.volume);
    MatchLevelConserves(s.limits[p], p, o.id, o.volume);
    RoundSide(b, o);
    if m.level == [] {
      SideEmptied(s, t);
    } else {
      if o.volume > 0 {
        RoundLevel(s.limits[p], p, o.id, o.volume);
      } else {
        assert m.level == s.limits[p];
      }
      SideKept(s, t, p, m.level);
    }
  }

  /** A round leaves the other side as its best level replaced by what the
      match left of it, then dropped if empty, and its trades are the
      match's. */
  lemma RoundSide(b: BookState, o: Incoming)
    requires var s := SideOf(b, Opposite(o.orderType));
      Increasing(s.tree) && s.best in s.limits
    ensures var t := Opposite(o.orderType);
      var s := SideOf(b, t);
      var p := s.best;
      var m := MatchLevel(s.limits[p], p, o.id, o.volume);
      && SideOf(MatchRound(b, o).book, t) == CheckForEmptyLimit(s.(limits := s.limits[p := m.level]), t, p)
      && MatchRound(b, o).trades == m.trades
  {
    MatchRoundIs(b, o);
  }

  /** One round spelled out: match the best level of the other side
      (which exists), then rebuild the side and the index from the result. */
  lemma MatchRoundIs(b: BookState, o: Incoming)
    requires var s := SideOf(b, Opposite(o.orderType));
      Increasing(s.tree) && s.best in s.limits
    ensures var t := Opposite(o.orderType);
      var s := SideOf(b, t);
      var p := s.best;
      var level := s.limits[p];
      var m := MatchLevel(level, p, o.id, o.volume);
      var k := Consumed(level, p, o.id, o.volume);
      MatchRound(b, o) == Matching(
        WithSide(b, t, CheckForEmptyLimit(s.(limits := s.limits[p := m.level]), t, p))
          .(idToOrder := EraseFilled(MarkFulfilled(b.idToOrder, Ids(level[..k])), m.trades)),
        o.(volume := m.remaining,
           status := if o.volume > 0 && m.remaining == 0 then Fulfilled else o.status),
        m.trades)
  {
  }

  /** The index after a round loses exactly the ids the round removed from
      the level, when every indexed order was ACTIVE. */
  lemma RoundRemoves(idx: map<Id, Resting>, level: seq<Entry>, p: Price, id: Id, v: Volume)
    requires level != [] && v > 0 && DistinctIds(level)
    requires forall x :: x in idx ==> idx[x].status == Active
    ensures var m := MatchLevel(level, p, id, v);
      var k := Consumed(level, p, id, v);
      IndexWithout(EraseFilled(MarkFulfilled(idx, Ids(level[..k])), m.trades), idx, Ids(level[..k]))
  {
    var m := MatchLevel(level, p, id, v);
    RoundLevel(level, p, id, v);
    var k := Consumed(level, p, id, v);
    PrefixMatched(level, k, m.trades);
    RoundIndex(idx, Ids(level[..k]), m.trades);
  }

  /** When each of the first k orders of a level traded, so did every id
      of that prefix. */
  lemma PrefixMatched(level: seq<Entry>, k: nat, trades: seq<Trade>)
    requires k <= |level|
    requires forall i :: 0 <= i < k ==> level[i].id in MatchedIds(trades)
    ensures forall x :: x in Ids(level[..k]) ==> x in MatchedIds(trades)
  {
    var removed := Ids(level[..k]);
    forall x | x in removed ensures x in MatchedIds(trades) {
      var j :| 0 <= j < k && removed[j] == x;
      assert level[j].id == x;
    }
  }

  /** The loop state after one more round. */
  function Next(m: Matching): Matching
    requires Matchable(m) && Continues(m)
  {
    var r := MatchRound(m.book, m.order);
    Matching(r.book, r.order, m.trades + r.trades)
  }

  /** The measure that one round lowers: the number of price levels on the
      other side, then whether the incoming order is still open. */
  function Measure(m: Matching): (nat, nat)
  {
    (|SideOf(m.book, Opposite(m.order.orderType)).tree|, if m.order.status == Fulfilled then 0 else 1)
  }

  /** One round keeps the loop's invariant and lowers its measure; it
      leaves the incoming order's own side alone, only removes ids from the
      index, and changes only the incoming order's volume and status, which
      becomes FULFILLED exactly when the volume is used up. */
  lemma NextKeeps(m: Matching)
    requires Matchable(m) && Continues(m)
    ensures var n := Next(m);
      && Matchable(n)
      && (Measure(n).0 < Measure(m).0 || (Measure(n).0 == Measure(m).0 && Measure(n).1 < Measure(m).1))
      && SideOf(n.book, m.order.orderType) == SideOf(m.book, m.order.orderType)
      && n.book.idToOrder.Keys <= m.book.idToOrder.Keys
      && n.order == m.order.(volume := n.order.volume, status := n.order.status)
      && n.order.status == (if n.order.volume == 0 then Fulfilled else m.order.status)
  {
    RoundValid(m.book, m.order);
    RoundIndexKept(m.book, m.order);
    RoundOrder(m.book, m.order);
  }

  /** One round as the loop of `Book::place_order` runs it: the state after
      it keeps the loop's invariant, leads to the same end, and has a lower
      measure. */
  lemma LoopStep(m: Matching) returns (n: Matching)
    requires Matchable(m) && Continues(m)
    ensures var r := MatchRound(m.book, m.order); n == Matching(r.book, r.order, m.trades + r.trades)
    ensures Matchable(n) && MatchLoop(n) == MatchLoop(m)
    ensures Measure(n).0 < Measure(m).0 || (Measure(n).0 == Measure(m).0 && Measure(n).1 < Measure(m).1)
  {
    NextKeeps(m);
    n := Next(m);
  }

  /** The loop of `Book::place_order` (src/Book.cpp:69-92 and 94-116): run
      rounds while the order crosses the other side and is not FULFILLED. */
  function MatchLoop(m: Matching): (r: Matching)
    requires Matchable(m)
    ensures !Continues(r)
    ensures |m.trades| <= |r.trades|
    decreases Measure(m).0, Measure(m).1
  {
    if !Continues(m) then m
    else
      NextKeeps(m);
      MatchLoop(Next(m))
  }

  /** The trades of the loop come after those already made, and together
      they take exactly the volume the incoming order lost. */
  lemma {:induction false} LoopVolume(m: Matching)
    requires Matchable(m)
    ensures var r := MatchLoop(m);
      && |m.trades| <= |r.trades| && r.trades[..|m.trades|] == m.trades
      && TradedVolume(r.trades) + r.order.volume == TradedVolume(m.trades) + m.order.volume
    decreases Measure(m).0, Measure(m).1
  {
    if Continues(m) {
      NextKeeps(m);
      NextVolume(m);
      var n := Next(m);
      LoopVolume(n);
      PrefixTrans(m.trades, n.trades, MatchLoop(n).trades);
    }
  }

  /** One round adds its trades after the earlier ones, and they take the
      volume the incoming order lost. */
  lemma NextVolume(m: Matching)
    requires Matchable(m) && Continues(m)
    ensures var n := Next(m);
      && |m.trades| <= |n.trades| && n.trades[..|m.trades|] == m.trades
      && TradedVolume(n.trades) + n.order.volume == TradedVolume(m.trades) + m.order.volume
  {
    RoundOrder(m.book, m.order);
    var r := MatchRound(m.book, m.order);
    TradedVolumeAppend(m.trades, r.trades);
    assert (m.trades + r.trades)[..|m.trades|] == m.trades;
  }

  /** The order `p` is at `q` or further from the taker's advantage: a buyer
      pays at least `q`, a seller receives at most `q`. */
  predicate NoBetter(t: OrderType, p: Price, q: Price)
  {
    if t == Buy then p >= q else p <= q
  }

  /** The loop ends with a valid book that the incoming order no longer
      crosses unless it is FULFILLED; it never touches the incoming order's
      own side, only removes ids from the index, and changes only the
      incoming order's volume and status, the status becoming FULFILLED
      exactly when volume it had is used up. */
  lemma {:induction false} LoopKeeps(m: Matching)
    requires Matchable(m)
    ensures var r := MatchLoop(m);
      && Matchable(r) && !Continues(r)
      && SideOf(r.book, m.order.orderType) == SideOf(m.book, m.order.orderType)
      && r.book.idToOrder.Keys <= m.book.idToOrder.Keys
      && r.order == m.order.(volume := r.order.volume, status := r.order.status)
      && r.order.status == (if m.order.volume > 0 && r.order.volume == 0 then Fulfilled else m.order.status)
    decreases Measure(m).0, Measure(m).1
  {
    if Continues(m) {
      NextKeeps(m);
      LoopKeeps(Next(m));
    }
  }

  /** One round trades only at the other side's best price, which the
      incoming order's limit reaches, and afterwards that best is no better
      for the taker than before. */
  lemma NextPrices(m: Matching)
    requires Matchable(m) && Continues(m)
    ensures var n := Next(m);
      var t := m.order.orderType;
      var p := SideOf(m.book, Opposite(t)).best;
      var q := SideOf(n.book, Opposite(t)).best;
      && |m.trades| <= |n.trades|
      && (forall i :: |m.trades| <= i < |n.trades| ==> n.trades[i].order == m.order.id && n.trades[i].price == p)
      && NoBetter(t, m.order.price, p)
      && (q == 0 || NoBetter(t, q, p))
  {
    RoundOrder(m.book, m.order);
  }

  /** Each trade of the loop has the incoming order as taker and a price no
      better for it than the other side's best when the loop began and no
      worse than its own limit; the prices move away from the taker from one
      trade to the next (price priority). */
  lemma {:induction false} LoopPrices(m: Matching)
    requires Matchable(m)
    ensures var r := MatchLoop(m);
      var t := m.order.orderType;
      && |m.trades| <= |r.trades|
      && (forall i :: |m.trades| <= i < |r.trades| ==>
            && r.trades[i].order == m.order.id
            && NoBetter(t, r.trades[i].price, SideOf(m.book, Opposite(t)).best)
            && NoBetter(t, m.order.price, r.trades[i].price))
      && (forall i, j :: |m.trades| <= i < j < |r.trades| ==> NoBetter(t, r.trades[j].price, r.trades[i].price))
    decreases Measure(m).0, Measure(m).1
  {
    if Continues(m) {
      var t := m.order.orderType;
      NextKeeps(m);
      NextPrices(m);
      var n := Next(m);
      LoopPrices(n);
      LoopVolume(n);
      var q := SideOf(n.book, Opposite(t)).best;
      if q == 0 {
        assert !Continues(n);
      }
      PricesJoin(t, m.order.id, m.order.price, SideOf(m.book, Opposite(t)).best, q,
                 |m.trades|, n.trades, MatchLoop(n).trades);
    }
  }

  /** Joins the price facts of one round (trades k0..|n| of r, all at p)
      with those of the rounds after it (trades |n|.. of r, at q or beyond). */
  lemma PricesJoin(t: OrderType, id: Id, limit: Price, p: Price, q: Price,
                   k0: nat, n: seq<Trade>, r: seq<Trade>)
    requires k0 <= |n| <= |r| && r[..|n|] == n
    requires forall i :: k0 <= i < |n| ==> n[i].order == id && n[i].price == p
    requires NoBetter(t, limit, p)
    requires |n| < |r| ==> q != 0 && NoBetter(t, q, p)
    requires forall i :: |n| <= i < |r| ==>
      r[i].order == id && NoBetter(t, r[i].price, q) && NoBetter(t, limit, r[i].price)
    requires forall i, j :: |n| <= i < j < |r| ==> NoBetter(t, r[j].price, r[i].price)
    ensures forall i :: k0 <= i < |r| ==>
      r[i].order == id && NoBetter(t, r[i].price, p) && NoBetter(t, limit, r[i].price)
    ensures forall i, j :: k0 <= i < j < |r| ==> NoBetter(t, r[j].price, r[i].price)
  {
    forall i | k0 <= i < |n| ensures r[i] == n[i] {
      assert r[i] == r[..|n|][i];
    }
  }

  // ---------------------------------------------------------------------
  // The operations of `Book`

  /** The calls of `place_order` that return: the order is ignored for its
      price or its id (src/Book.cpp:33-42), or it has volume, or it does
      not reach the other side's best. For the remaining calls the loop of
      src/Book.cpp:69 (or 94) never ends (see `ZeroVolumeRoundStalls`). */
  predicate PlaceReturns(b: BookState, id: Id, t: OrderType, price: Price, volume: Volume)
  {
    price == 0 || id in b.idToOrder || volume > 0 || !Crosses(b, t, price)
  }

  /** `Book::place_order` (src/Book.cpp:30-132): an order at price 0 or
      with an id already indexed is ignored; otherwise it is matched against
      the other side while it crosses it, and whatever is not FULFILLED
      rests at the back of its level, ACTIVE and indexed. Returns the new
      book and the trades, in the order they happened. */
  function Place(b: BookState, id: Id, agentId: Id, t: OrderType, price: Price, volume: Volume)
    : (r: (BookState, seq<Trade>))
    requires Valid(b)
    requires PlaceReturns(b, id, t, price, volume)
    ensures TradedVolume(r.1) <= volume
  {
    if price == 0 || id in b.idToOrder then (b, [])
    else
      var m0 := Matching(b, Incoming(id, agentId, t, price, volume, Active), []);
      LoopKeeps(m0);
      LoopVolume(m0);
      Finish(MatchLoop(m0))
  }

  /** The end of `place_order` (src/Book.cpp:120-128): an incoming order
      that is not FULFILLED is indexed and joins the back of the level at its
      price on its own side. */
  function Finish(m: Matching): (r: (BookState, seq<Trade>))
    requires Increasing(SideOf(m.book, m.order.orderType).tree)
    ensures r.1 == m.trades
    ensures m.order.id in r.0.idToOrder <==> m.order.status != Fulfilled || m.order.id in m.book.idToOrder
    ensures SideOf(r.0, Opposite(m.order.orderType)) == SideOf(m.book, Opposite(m.order.orderType))
  {
    var o := m.order;
    if o.status != Fulfilled then
      var s := InsertOrder(SideOf(m.book, o.orderType), o.orderType, o.price, Entry(o.id, o.volume));
      var idx := m.book.idToOrder[o.id := Resting(o.agentId, o.orderType, o.price, o.status)];
      (WithSide(m.book, o.orderType, s).(idToOrder := idx), m.trades)
    else (m.book, m.trades)
  }

  /** `place_order` with the loop guaranteed to stop: a new order with no
      volume whose price reaches the other side's best is dropped, which
      is the one case where the code as written never returns (see
      `ZeroVolumeRoundStalls`). Everywhere else it is `Place`. */
  function PlaceChecked(b: BookState, id: Id, agentId: Id, t: OrderType, price: Price, volume: Volume)
    : (r: (BookState, seq<Trade>))
    requires Valid(b)
    ensures Valid(r.0)
    ensures PlaceReturns(b, id, t, price, volume) ==> r == Place(b, id, agentId, t, price, volume)
    ensures !PlaceReturns(b, id, t, price, volume) ==> r == (b, [])
  {
    if !PlaceReturns(b, id, t, price, volume) then (b, [])
    else
      PlaceKeepsValid(b, id, agentId, t, price, volume);
      Place(b, id, agentId, t, price, volume)
  }

  /** A zero price or a known id leaves the book alone and trades
      nothing, whatever the volume. */
  lemma PlaceCheckedIgnores(b: BookState, id: Id, agentId: Id, t: OrderType, price: Price, volume: Volume)
    requires Valid(b) && (price == 0 || id in b.idToOrder)
    ensures PlaceChecked(b, id, agentId, t, price, volume) == (b, [])
  {
    PlaceIgnores(b, id, agentId, t, price, volume);
  }

  /** As written, a round of `place_order`'s loop for an incoming order
      with no volume that reaches the other side's best matches nothing
      and changes nothing, and the loop's condition still holds after it:
      the loop of src/Book.cpp:69 (or 94) never ends. */
  lemma ZeroVolumeRoundStalls(b: BookState, o: Incoming)
    requires Valid(b) && o.volume == 0 && o.status == Active
    requires Crosses(b, o.orderType, o.price)
    ensures MatchRound(b, o) == Matching(b, o, [])
    ensures Continues(MatchRound(b, o))
  {
    var t := Opposite(o.orderType);
    var s := SideOf(b, t);
    var p := s.best;
    assert p in s.tree;
    var level := s.limits[p];
    assert MatchLevel(level, p, o.id, 0) == LevelMatch(level, 0, []);
    assert Consumed(level, p, o.id, 0) == 0;
    assert Ids(level[..0]) == [];
    assert MarkFulfilled(b.idToOrder, []) == b.idToOrder;
    assert s.(limits := s.limits[p := level]) == s;
    assert WithSide(b, t, s) == b;
    MatchRoundIs(b, o);
  }

  /** `Book::delete_order(Order*, bool)` (src/Book.cpp:270-284): take the
      order with that id out of the level at `price`, if there is one, and
      drop the level if it is now empty. */
  function DeleteFromLimit(s: Side, t: OrderType, price: Price, id: Id): (r: Side)
    requires Increasing(s.tree)
    ensures Increasing(r.tree)
    ensures forall q :: q != price ==> (q in r.limits <==> q in s.limits)
    ensures forall q :: q != price && q in s.limits ==> r.limits[q] == s.limits[q]
    ensures price !in s.limits ==> r == s
  {
    if price !in s.limits then s
    else CheckForEmptyLimit(s.(limits := s.limits[price := RemoveId(s.limits[price], id)]), t, price)
  }

  /** `Book::delete_order(ID)` (src/Book.cpp:134-153): an unknown id, or an
      order that is not ACTIVE, is left alone; otherwise the order leaves its
      level and the index. */
  function Cancel(b: BookState, id: Id): (nb: BookState)
    requires Valid(b)
    ensures id !in nb.idToOrder && StatusOf(nb, id) == Deleted
    ensures forall x :: x != id ==> (x in nb.idToOrder <==> x in b.idToOrder)
    ensures forall x :: x in nb.idToOrder ==> nb.idToOrder[x] == b.idToOrder[x]
    ensures id !in b.idToOrder ==> nb == b
  {
    if id !in b.idToOrder then b
    else
      var r := b.idToOrder[id];
      if r.status != Active then b
      else
        var s := DeleteFromLimit(SideOf(b, r.orderType), r.orderType, r.price, id);
        WithSide(b, r.orderType, s).(idToOrder := b.idToOrder - {id})
  }

  /** `Book::get_order_status` (src/Book.cpp:313-321): the status of an
      indexed order, and DELETED for any id the index does not hold. A
      valid book reports every order it holds as ACTIVE, so FULFILLED is
      never reported: a filled order has already left the index. */
  function StatusOf(b: BookState, id: Id): (st: OrderStatus)
    ensures id !in b.idToOrder ==> st == Deleted
    ensures Valid(b) ==> st == (if id in b.idToOrder then Active else Deleted)
  {
    if id in b.idToOrder then b.idToOrder[id].status else Deleted
  }

  /** `Book::get_spread` (src/Book.cpp:299-301): best ask minus best bid in
      32-bit unsigned arithmetic, so it wraps when the bid is the larger
      (an empty ask side counts as 0). */
  function Spread(b: BookState): (r: Price)
    ensures b.buys.best <= b.sells.best ==> r == b.sells.best - b.buys.best
    ensures b.buys.best > b.sells.best ==> r == 0x1_0000_0000 - (b.buys.best - b.sells.best)
  {
    (b.sells.best as int - b.buys.best as int) % 0x1_0000_0000
  }

  // ---------------------------------------------------------------------
  // What placing an order promises

  /** Adding an order to a level keeps the level's ids distinct when the
      order's id is new there. */
  lemma AppendDistinct(es: seq<Entry>, e: Entry)
    requires DistinctIds(es) && e.id !in Ids(es)
    ensures DistinctIds(es + [e]) && Ids(es + [e]) == Ids(es) + [e.id]
  {
    var r := es + [e];
    forall i, j | 0 <= i < j < |r| ensures r[i].id != r[j].id {
      if j == |es| {
        assert Ids(es)[i] == r[i].id;
      }
    }
  }

  /** Resting an order keeps its side well formed. */
  lemma RestSide(s: Side, t: OrderType, price: Price, e: Entry)
    requires SideValid(s, t) && price != 0
    requires price in s.limits ==> e.id !in Ids(s.limits[price])
    ensures SideValid(InsertOrder(s, t, price, e), t)
  {
    if price in s.limits {
      RestAtLevel(s, t, price, e);
    } else {
      RestAtNewLevel(s, t, price, e);
    }
  }

  lemma RestAtLevel(s: Side, t: OrderType, price: Price, e: Entry)
    requires SideValid(s, t) && price in s.limits && e.id !in Ids(s.limits[price])
    ensures SideValid(InsertOrder(s, t, price, e), t)
  {
    AppendDistinct(s.limits[price], e);
    assert price in s.tree;
    Ends(s.tree, price);
  }

  lemma RestAtNewLevel(s: Side, t: OrderType, price: Price, e: Entry)
    requires SideValid(s, t) && price != 0 && price !in s.limits
    ensures SideValid(InsertOrder(s, t, price, e), t)
  {
    var r := InsertOrder(s, t, price, e);
    assert DistinctIds([e]);
    assert r.tree == Insert(s.tree, price);
    assert 0 !in s.tree && price !in s.tree;
    InsertBest(s.tree, t, price);
  }

  /** The best of an ordered price set after inserting a new nonzero price:
      the new price where it beats the old best or there was none. */
  lemma InsertBest(tree: seq<Price>, t: OrderType, p: Price)
    requires Increasing(tree) && 0 !in tree && p != 0 && p !in tree
    ensures var q := BestOf(tree, t);
      BestOf(Insert(tree, p), t) == if q == 0 || (if t == Buy then p > q else p < q) then p else q
  {
    InsertEnds(tree, p);
    if tree != [] {
      assert tree[0] in tree && tree[|tree| - 1] in tree;
    }
  }

  /** Resting a new ACTIVE order that does not cross the other side keeps
      the book valid. */
  lemma RestBook(b: BookState, id: Id, agentId: Id, t: OrderType, price: Price, v: Volume)
    requires Valid(b) && price != 0 && id !in b.idToOrder && !Crosses(b, t, price)
    ensures var s := InsertOrder(SideOf(b, t), t, price, Entry(id, v));
      Valid(WithSide(b, t, s).(idToOrder := b.idToOrder[id := Resting(agentId, t, price, Active)]))
  {
    var s0 := SideOf(b, t);
    if price in s0.limits {
      var level := s0.limits[price];
      forall i | 0 <= i < |level| ensures level[i].id != id {
        assert level[i].id in b.idToOrder;
      }
    }
    RestSide(s0, t, price, Entry(id, v));
    var s := InsertOrder(s0, t, price, Entry(id, v));
    var nb := WithSide(b, t, s).(idToOrder := b.idToOrder[id := Resting(agentId, t, price, Active)]);
    assert SideOf(nb, t) == s;
    assert SideOf(nb, Opposite(t)) == SideOf(b, Opposite(t));
    RestIndexed(b, nb, id, agentId, t, price, v);
  }

  /** After resting, every indexed order is queued where the index says,
      and every queued order is indexed. */
  lemma RestIndexed(b: BookState, nb: BookState, id: Id, agentId: Id, t: OrderType, price: Price, v: Volume)
    requires IndexedRest(b) && LevelsIndexed(b, t) && LevelsIndexed(b, Opposite(t))
    requires SideValid(SideOf(b, t), t) && price != 0 && id !in b.idToOrder
    requires SideOf(nb, t) == InsertOrder(SideOf(b, t), t, price, Entry(id, v))
    requires SideOf(nb, Opposite(t)) == SideOf(b, Opposite(t))
    requires nb.idToOrder == b.idToOrder[id := Resting(agentId, t, price, Active)]
    ensures IndexedRest(nb) && LevelsIndexed(nb, t) && LevelsIndexed(nb, Opposite(t))
  {
    var s0 := SideOf(b, t);
    var old_ := if price in s0.limits then s0.limits[price] else [];
    AppendIds(old_, Entry(id, v));
    RestIndexedRest(b, nb, id, agentId, t, price, v);
    RestLevelsIndexed(b, nb, id, agentId, t, price, v);
    assert Opposite(Opposite(t)) == t;
  }

  lemma AppendIds(es: seq<Entry>, e: Entry)
    ensures Ids(es + [e]) == Ids(es) + [e.id]
  {
  }

  lemma RestIndexedRest(b: BookState, nb: BookState, id: Id, agentId: Id, t: OrderType, price: Price, v: Volume)
    requires IndexedRest(b) && Increasing(SideOf(b, t).tree) && price != 0 && id !in b.idToOrder
    requires SideOf(nb, t) == InsertOrder(SideOf(b, t), t, price, Entry(id, v))
    requires SideOf(nb, Opposite(t)) == SideOf(b, Opposite(t))
    requires nb.idToOrder == b.idToOrder[id := Resting(agentId, t, price, Active)]
    requires var s0 := SideOf(b, t);
      var old_ := if price in s0.limits then s0.limits[price] else [];
      Ids(old_ + [Entry(id, v)]) == Ids(old_) + [id]
    ensures IndexedRest(nb)
  {
    var s0 := SideOf(b, t);
    var s := SideOf(nb, t);
    forall x | x in nb.idToOrder
      ensures var r := nb.idToOrder[x];
        && r.status == Active
        && r.price in SideOf(nb, r.orderType).limits
        && x in Ids(SideOf(nb, r.orderType).limits[r.price])
    {
      var r := nb.idToOrder[x];
      if x == id {
        assert Ids(s.limits[price])[|s.limits[price]| - 1] == id;
      } else if r.orderType == t {
        assert r == b.idToOrder[x];
        if r.price == price {
          assert x in Ids(s0.limits[price]);
        }
      } else {
        assert r.orderType == Opposite(t);
      }
    }
  }

  lemma RestLevelsIndexed(b: BookState, nb: BookState, id: Id, agentId: Id, t: OrderType, price: Price, v: Volume)
    requires LevelsIndexed(b, t) && Increasing(SideOf(b, t).tree) && price != 0 && id !in b.idToOrder
    requires SideOf(nb, t) == InsertOrder(SideOf(b, t), t, price, Entry(id, v))
    requires nb.idToOrder == b.idToOrder[id := Resting(agentId, t, price, Active)]
    ensures LevelsIndexed(nb, t)
  {
    var s0 := SideOf(b, t);
    var s := SideOf(nb, t);
    forall q, i | q in s.limits && 0 <= i < |s.limits[q]|
      ensures var x := s.limits[q][i].id;
        x in nb.idToOrder && nb.idToOrder[x].orderType == t && nb.idToOrder[x].price == q
    {
      if q == price {
        var old_ := if price in s0.limits then s0.limits[price] else [];
        if i < |old_| {
          assert s.limits[q][i] == old_[i];
        }
      }
    }
  }

  /** `place_order` keeps the book valid: both sides well formed, the index
      and the levels in agreement, and the book not crossed. */
  lemma PlaceKeepsValid(b: BookState, id: Id, agentId: Id, t: OrderType, price: Price, volume: Volume)
    requires Valid(b) && PlaceReturns(b, id, t, price, volume)
    ensures Valid(Place(b, id, agentId, t, price, volume).0)
  {
    if price != 0 && id !in b.idToOrder {
      var m0 := Matching(b, Incoming(id, agentId, t, price, volume, Active), []);
      LoopKeeps(m0);
      var m := MatchLoop(m0);
      if m.order.status != Fulfilled {
        RestBook(m.book, id, agentId, t, price, m.order.volume);
        assert m.order == Incoming(id, agentId, t, price, m.order.volume, Active);
      }
    }
  }

  /** An order at price 0, or with an id the book already holds, changes
      nothing and trades nothing. */
  lemma PlaceIgnores(b: BookState, id: Id, agentId: Id, t: OrderType, price: Price, volume: Volume)
    requires Valid(b) && (price == 0 || id in b.idToOrder)
    ensures Place(b, id, agentId, t, price, volume) == (b, [])
  {
  }

  /** What becomes of the placed order: the trades take at most its volume;
      it rests exactly when volume is left (or it had none), ACTIVE, at the
      back of the level at its price, with the volume the trades did not
      take; and when the trades take all of it, it is not in the book and
      its status reads DELETED. */
  lemma PlaceOutcome(b: BookState, id: Id, agentId: Id, t: OrderType, price: Price, volume: Volume)
    requires Valid(b) && PlaceReturns(b, id, t, price, volume)
    requires price != 0 && id !in b.idToOrder
    ensures var r := Place(b, id, agentId, t, price, volume);
      Rested(SideOf(b, t), id, agentId, t, price, volume, r.0, r.1)
  {
    var m0 := Matching(b, Incoming(id, agentId, t, price, volume, Active), []);
    LoopKeeps(m0);
    LoopVolume(m0);
    var m := MatchLoop(m0);
    var r := Place(b, id, agentId, t, price, volume);
    assert r == Finish(m);
    FinishOutcome(m, SideOf(b, t), id, agentId, t, price, volume, r.0, r.1);
  }

  /** What the end of `place_order` does with the incoming order, given
      what the loop promises about it. */
  lemma FinishOutcome(m: Matching, s0: Side, id: Id, agentId: Id, t: OrderType, price: Price, volume: Volume,
                      nb: BookState, ts: seq<Trade>)
    requires m.order == Incoming(id, agentId, t, price, m.order.volume, m.order.status)
    requires SideOf(m.book, t) == s0 && Increasing(s0.tree)
    requires id !in m.book.idToOrder
    requires TradedVolume(m.trades) + m.order.volume == volume
    requires m.order.status == (if volume > 0 && m.order.volume == 0 then Fulfilled else Active)
    requires (nb, ts) == Finish(m)
    ensures Rested(s0, id, agentId, t, price, volume, nb, ts)
  {
  }

  /** What becomes of an order of `volume` placed on a book whose own side
      was `s0`, given the new book `nb` and the trades `ts`: the trades take
      at most its volume; it rests exactly when some volume is left (or it
      had none), and then it is indexed as ACTIVE and is the last entry of
      the level at its price, with what is left of its volume; otherwise it
      reads as DELETED. */
  ghost predicate Rested(s0: Side, id: Id, agentId: Id, t: OrderType, price: Price, volume: Volume,
                         nb: BookState, ts: seq<Trade>)
  {
    var rests := volume == 0 || TradedVolume(ts) < volume;
    && TradedVolume(ts) <= volume
    && (id in nb.idToOrder <==> rests)
    && StatusOf(nb, id) == (if rests then Active else Deleted)
    && (rests ==>
          && nb.idToOrder[id] == Resting(agentId, t, price, Active)
          && price in SideOf(nb, t).limits
          && SideOf(nb, t).limits[price] ==
               (if price in s0.limits then s0.limits[price] else [])
               + [Entry(id, volume - TradedVolume(ts))])
  }

  /** The trades of `place_order` all have the placed order as taker, at
      prices within its limit and no better for it than the other side's
      best. */
  lemma PlaceTrades(b: BookState, id: Id, agentId: Id, t: OrderType, price: Price, volume: Volume)
    requires Valid(b) && PlaceReturns(b, id, t, price, volume)
    ensures var ts := Place(b, id, agentId, t, price, volume).1;
      forall i :: 0 <= i < |ts| ==>
        && ts[i].order == id
        && NoBetter(t, price, ts[i].price)
        && NoBetter(t, ts[i].price, SideOf(b, Opposite(t)).best)
  {
    if price != 0 && id !in b.idToOrder {
      assert volume > 0 || !Crosses(b, t, price);
      var m0 := Matching(b, Incoming(id, agentId, t, price, volume, Active), []);
      assert m0.book == b && m0.order.orderType == t && m0.order.price == price && m0.order.id == id;
      LoopPrices(m0);
      PlaceTradesAre(b, id, agentId, t, price, volume);
    }
  }

  /** Price priority: the prices of the trades of `place_order` move away
      from the taker, best first. */
  lemma PlacePriority(b: BookState, id: Id, agentId: Id, t: OrderType, price: Price, volume: Volume)
    requires Valid(b) && PlaceReturns(b, id, t, price, volume)
    ensures var ts := Place(b, id, agentId, t, price, volume).1;
      forall i, j :: 0 <= i < j < |ts| ==> NoBetter(t, ts[j].price, ts[i].price)
  {
    if price != 0 && id !in b.idToOrder {
      var m0 := Matching(b, Incoming(id, agentId, t, price, volume, Active), []);
      LoopPrices(m0);
      PlaceTradesAre(b, id, agentId, t, price, volume);
    }
  }

  /** The trades `place_order` returns are those of its matching loop. */
  lemma PlaceTradesAre(b: BookState, id: Id, agentId: Id, t: OrderType, price: Price, volume: Volume)
    requires Valid(b) && PlaceReturns(b, id, t, price, volume)
    requires price != 0 && id !in b.idToOrder
    ensures Place(b, id, agentId, t, price, volume).1
      == MatchLoop(Matching(b, Incoming(id, agentId, t, price, volume, Active), [])).trades
  {
  }

  /** A loop state that `place_order`'s loop stops at, on the way from the
      incoming order's first state, is where the end of `place_order`
      starts from. */
  lemma PlaceFinishes(b: BookState, id: Id, agentId: Id, t: OrderType, price: Price, volume: Volume,
                      m: Matching)
    requires Valid(b) && PlaceReturns(b, id, t, price, volume)
    requires price != 0 && id !in b.idToOrder
    requires Matchable(m) && !Continues(m) && m.order.orderType == t
    requires MatchLoop(m) == MatchLoop(Matching(b, Incoming(id, agentId, t, price, volume, Active), []))
    ensures Place(b, id, agentId, t, price, volume) == (Finish(Matching(m.book, m.order, [])).0, m.trades)
  {
  }

  /** An order that does not reach the other side's best trades nothing. */
  lemma PlaceNoCross(b: BookState, id: Id, agentId: Id, t: OrderType, price: Price, volume: Volume)
    requires Valid(b) && !Crosses(b, t, price)
    ensures Place(b, id, agentId, t, price, volume).1 == []
  {
    if price != 0 && id !in b.idToOrder {
      var m0 := Matching(b, Incoming(id, agentId, t, price, volume, Active), []);
      assert !Continues(m0);
      PlaceTradesAre(b, id, agentId, t, price, volume);
    }
  }

  // ---------------------------------------------------------------------
  // What cancelling an order promises

  /** A side whose level at p empties: the level leaves the side, which
      stays well formed, and its best price is unchanged or, when it was
      the emptied level, moves away from the other side. */
  lemma SideDropped(s: Side, t: OrderType, p: Price)
    requires SideValid(s, t) && p in s.limits
    ensures var s3 := CheckForEmptyLimit(s.(limits := s.limits[p := []]), t, p);
      && SideValid(s3, t)
      && LevelReplaced(s, s3, p, [])
      && (s3.best == 0 || NoBetter(Opposite(t), s3.best, s.best))
  {
    if p == s.best {
      SideEmptied(s, t);
    } else {
      SideDroppedBehind(s, t, p);
    }
  }

  /** Dropping a level that is not the best leaves the best alone. */
  lemma SideDroppedBehind(s: Side, t: OrderType, p: Price)
    requires SideValid(s, t) && p in s.limits && p != s.best
    ensures var s3 := CheckForEmptyLimit(s.(limits := s.limits[p := []]), t, p);
      && s3 == Side(s.limits - {p}, Remove(s.tree, p), s.best)
      && SideValid(s3, t)
  {
    assert p in s.tree;
    var s2 := s.(limits := s.limits[p := []]);
    assert s2.limits - {p} == s.limits - {p};
    RemoveKeepsBest(s.tree, t, p);
  }

  /** Removing a price other than the best from an ordered price set keeps
      the best. */
  lemma RemoveKeepsBest(tree: seq<Price>, t: OrderType, p: Price)
    requires Increasing(tree) && p in tree && p != BestOf(tree, t)
    ensures BestOf(Remove(tree, p), t) == BestOf(tree, t)
  {
  }

  /** `delete_order` keeps the book valid. */
  lemma CancelKeepsValid(b: BookState, id: Id)
    requires Valid(b)
    ensures Valid(Cancel(b, id))
  {
    if id in b.idToOrder && b.idToOrder[id].status == Active {
      var t := b.idToOrder[id].orderType;
      var p := b.idToOrder[id].price;
      var s := SideOf(b, t);
      var level := s.limits[p];
      RemoveIdSpec(level, id);
      var nl := RemoveId(level, id);
      if nl == [] {
        SideDropped(s, t, p);
      } else {
        SideKept(s, t, p, nl);
      }
      var s3 := DeleteFromLimit(s, t, p, id);
      var nb := WithSide(b, t, s3).(idToOrder := b.idToOrder - {id});
      assert Cancel(b, id) == nb;
      assert SideOf(nb, t) == s3;
      assert SideOf(nb, Opposite(t)) == SideOf(b, Opposite(t));
      CancelIndexedRest(b, nb, t, p, id, nl);
      CancelLevelsIndexed(b, nb, t, p, id, nl);
      assert Opposite(Opposite(t)) == t;
    }
  }

  lemma CancelIndexedRest(b: BookState, nb: BookState, t: OrderType, p: Price, id: Id, nl: seq<Entry>)
    requires IndexedRest(b)
    requires var s := SideOf(b, t);
      && p in s.limits
      && (forall x :: x in Ids(nl) <==> x in Ids(s.limits[p]) && x != id)
      && LevelReplaced(s, SideOf(nb, t), p, nl)
    requires SideOf(nb, Opposite(t)) == SideOf(b, Opposite(t))
    requires nb.idToOrder == b.idToOrder - {id}
    ensures IndexedRest(nb)
  {
    forall x | x in nb.idToOrder
      ensures var r := nb.idToOrder[x];
        && r.status == Active
        && r.price in SideOf(nb, r.orderType).limits
        && x in Ids(SideOf(nb, r.orderType).limits[r.price])
    {
      var r := nb.idToOrder[x];
      assert r == b.idToOrder[x];
      if r.orderType == t && r.price == p {
        assert x in Ids(nl);
      } else if r.orderType != t {
        assert r.orderType == Opposite(t);
      }
    }
  }

  lemma CancelLevelsIndexed(b: BookState, nb: BookState, t: OrderType, p: Price, id: Id, nl: seq<Entry>)
    requires LevelsIndexed(b, t) && LevelsIndexed(b, Opposite(t))
    requires id in b.idToOrder && b.idToOrder[id].orderType == t && b.idToOrder[id].price == p
    requires var s := SideOf(b, t);
      && p in s.limits
      && (forall x :: x in Ids(nl) <==> x in Ids(s.limits[p]) && x != id)
      && LevelReplaced(s, SideOf(nb, t), p, nl)
    requires SideOf(nb, Opposite(t)) == SideOf(b, Opposite(t))
    requires nb.idToOrder == b.idToOrder - {id}
    ensures LevelsIndexed(nb, t) && LevelsIndexed(nb, Opposite(t))
  {
    var s := SideOf(b, t);
    var s3 := SideOf(nb, t);
    forall q, i | q in s3.limits && 0 <= i < |s3.limits[q]|
      ensures var x := s3.limits[q][i].id;
        x in nb.idToOrder && nb.idToOrder[x].orderType == t && nb.idToOrder[x].price == q
    {
      if q == p {
        var x := s3.limits[q][i].id;
        assert x == Ids(nl)[i] && x in Ids(nl);
        var j :| 0 <= j < |s.limits[p]| && Ids(s.limits[p])[j] == x;
        assert s.limits[p][j].id == x;
      }
    }
    var u := Opposite(t);
    var s4 := SideOf(nb, u);
    forall q, i | q in s4.limits && 0 <= i < |s4.limits[q]|
      ensures var x := s4.limits[q][i].id;
        x in nb.idToOrder && nb.idToOrder[x].orderType == u && nb.idToOrder[x].price == q
    {
      var x := s4.limits[q][i].id;
      assert x in b.idToOrder && b.idToOrder[x].orderType == u;
    }
  }

  /** The level of a cancelled order: it loses that order and nothing
      else, and leaves the book when that was its last order; every other
      level, and the other side, stays as it was. */
  lemma CancelLevel(b: BookState, id: Id)
    requires Valid(b) && id in b.idToOrder
    ensures var nb := Cancel(b, id);
      var r := b.idToOrder[id];
      var s := SideOf(b, r.orderType);
      var s3 := SideOf(nb, r.orderType);
      var nl := RemoveId(s.limits[r.price], id);
      && SideOf(nb, Opposite(r.orderType)) == SideOf(b, Opposite(r.orderType))
      && LevelReplaced(s, s3, r.price, nl)
      && id !in Ids(nl)
      && |nl| == |s.limits[r.price]| - 1
  {
    var r := b.idToOrder[id];
    var t := r.orderType;
    var s := SideOf(b, t);
    var level := s.limits[r.price];
    RemoveIdSpec(level, id);
    var nl := RemoveId(level, id);
    if nl == [] {
      SideDropped(s, t, r.price);
    } else {
      SideKept(s, t, r.price, nl);
    }
    assert Opposite(Opposite(t)) == t;
  }

  /** In a valid book with orders on both sides the spread is the positive
      gap between best ask and best bid; with no asks it wraps around to
      2^32 minus the best bid. */
  lemma SpreadValid(b: BookState)
    requires Valid(b)
    ensures b.buys.best != 0 && b.sells.best != 0 ==> 0 < Spread(b) == b.sells.best - b.buys.best
    ensures b.buys.best != 0 && b.sells.best == 0 ==> Spread(b) == 0x1_0000_0000 - b.buys.best
  {
  }
}
