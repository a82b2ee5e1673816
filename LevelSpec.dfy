/** The value view of one price level: a FIFO list of resting orders, and
    the matching of an incoming order against it (src/Limit.cpp). */
module LevelSpec {
  import opened Types

  /** What matching needs to know of a resting order: its id and its
      remaining volume. */
  datatype Entry = Entry(id: Id, volume: Volume)

  /** The ids of a level, oldest first. */
  function Ids(es: seq<Entry>): (ids: seq<Id>)
    ensures |ids| == |es|
    ensures forall i :: 0 <= i < |es| ==> ids[i] == es[i].id
  {
    seq(|es|, i requires 0 <= i < |es| => es[i].id)
  }

  /** No id occurs twice in a level. */
  ghost predicate DistinctIds(es: seq<Entry>)
  {
    forall i, j :: 0 <= i < j < |es| ==> es[i].id != es[j].id
  }

  /** A level that is another level from position k on, except that its
      head may have less volume, has that level's ids from k on. */
  lemma SuffixIds(level: seq<Entry>, nl: seq<Entry>, k: nat)
    requires k + |nl| == |level|
    requires nl != [] ==> nl[0].id == level[k].id && nl[1..] == level[k + 1..]
    ensures Ids(nl) == Ids(level)[k..]
  {
    forall i | 0 <= i < |nl| ensures Ids(nl)[i] == Ids(level)[k..][i] {
      if i > 0 {
        assert nl[i] == nl[1..][i - 1];
      }
    }
  }

  /** A level whose ids are those of another level from position k on
      has no repeated id when the other has none. */
  lemma SuffixDistinct(level: seq<Entry>, nl: seq<Entry>, k: nat)
    requires k <= |level| && DistinctIds(level) && Ids(nl) == Ids(level)[k..]
    ensures DistinctIds(nl)
  {
    forall i, j | 0 <= i < j < |nl| ensures nl[i].id != nl[j].id {
      assert nl[i].id == Ids(nl)[i] == level[k + i].id;
      assert nl[j].id == Ids(nl)[j] == level[k + j].id;
    }
  }

  /** Sum of the remaining volumes of a level (its `total_volume`). */
  function Total(es: seq<Entry>): nat
  {
    if es == [] then 0 else es[0].volume + Total(es[1..])
  }

  lemma {:induction false} TotalAppend(a: seq<Entry>, b: seq<Entry>)
    ensures Total(a + b) == Total(a) + Total(b)
  {
    if a == [] {
      assert a + b == b;
    } else {
      assert (a + b)[1..] == a[1..] + b;
      TotalAppend(a[1..], b);
    }
  }

  /** Removing the entry at position k takes exactly its volume off the total. */
  lemma TotalRemove(es: seq<Entry>, k: nat)
    requires k < |es|
    ensures Total(es[..k] + es[k + 1..]) == Total(es) - es[k].volume
  {
    var a, c := es[..k], es[k + 1..];
    assert es == a + ([es[k]] + c);
    TotalAppend(a, [es[k]] + c);
    assert ([es[k]] + c)[1..] == c;
    TotalAppend(a, c);
  }

  /** The outcome of matching against one level: what is left of the level,
      what is left of the incoming order, and the trades, oldest first. */
  datatype LevelMatch = LevelMatch(level: seq<Entry>, remaining: Volume, trades: seq<Trade>)

  /** `Limit::match_order`: while the level has orders and the incoming order
      has volume left, fill the head (oldest) order for the smaller of the two
      volumes; a head left with no volume leaves the level. */
  function MatchLevel(level: seq<Entry>, price: Price, takerId: Id, remaining: Volume): (r: LevelMatch)
    ensures |r.level| <= |level| && r.remaining <= remaining
    ensures r.level == [] || r.remaining == 0
    decreases |level|, remaining
  {
    if level == [] || remaining == 0 then LevelMatch(level, remaining, [])
    else
      var head := level[0];
      var fill := Min(head.volume, remaining);
      var rest := if fill == head.volume then level[1..]
                  else [head.(volume := head.volume - fill)] + level[1..];
      var m := MatchLevel(rest, price, takerId, remaining - fill);
      m.(trades := [Trade(takerId, head.id, price, fill)] + m.trades)
  }

  /** One round of matching, `MatchLevel`'s definition unfolded once: the
      head is filled for the smaller volume, `trade` records that fill, and
      matching goes on against what is left of the level with the volume
      `left`. */
  lemma MatchLevelHead(level: seq<Entry>, price: Price, takerId: Id, remaining: Volume,
                       fill: Volume, rest: seq<Entry>, left: Volume, trade: Trade)
    requires level != [] && remaining > 0
    requires fill == Min(level[0].volume, remaining)
    requires rest == if fill == level[0].volume then level[1..]
                     else [level[0].(volume := level[0].volume - fill)] + level[1..]
    requires left == remaining - fill && trade == Trade(takerId, level[0].id, price, fill)
    ensures var r := MatchLevel(rest, price, takerId, left);
      MatchLevel(level, price, takerId, remaining) == r.(trades := [trade] + r.trades)
  {
  }

  /** Volume is conserved on the taker's side: the trades carry exactly
      what the incoming order lost. */
  lemma {:induction false} MatchLevelTakerConserves(level: seq<Entry>, price: Price, takerId: Id, remaining: Volume)
    ensures var m := MatchLevel(level, price, takerId, remaining);
      m.remaining <= remaining && TradedVolume(m.trades) == remaining - m.remaining
    decreases |level|, remaining
  {
    if level != [] && remaining != 0 {
      var head := level[0];
      var fill := Min(head.volume, remaining);
      var rest := if fill == head.volume then level[1..]
                  else [head.(volume := head.volume - fill)] + level[1..];
      MatchLevelTakerConserves(rest, price, takerId, remaining - fill);
      MatchLevelHead(level, price, takerId, remaining, fill, rest, remaining - fill, Trade(takerId, level[0].id, price, fill));
      var m := MatchLevel(rest, price, takerId, remaining - fill);
      var t := Trade(takerId, head.id, price, fill);
      TradedVolumeAppend([t], m.trades);
      assert TradedVolume([t]) == fill by { assert [t][1..] == []; }
    }
  }

  /** Volume is conserved on the level's side: the trades carry exactly
      what the level lost. */
  lemma {:induction false} MatchLevelConserves(level: seq<Entry>, price: Price, takerId: Id, remaining: Volume)
    ensures var m := MatchLevel(level, price, takerId, remaining);
      Total(m.level) <= Total(level) && TradedVolume(m.trades) == Total(level) - Total(m.level)
    decreases |level|, remaining
  {
    if level != [] && remaining != 0 {
      var head := level[0];
      var fill := Min(head.volume, remaining);
      var rest := if fill == head.volume then level[1..]
                  else [head.(volume := head.volume - fill)] + level[1..];
      MatchLevelConserves(rest, price, takerId, remaining - fill);
      MatchLevelHead(level, price, takerId, remaining, fill, rest, remaining - fill, Trade(takerId, level[0].id, price, fill));
      var m := MatchLevel(rest, price, takerId, remaining - fill);
      var t := Trade(takerId, head.id, price, fill);
      TradedVolumeAppend([t], m.trades);
      assert TradedVolume([t]) == fill by { assert [t][1..] == []; }
      if fill != head.volume {
        assert rest[1..] == level[1..];
      }
    }
  }

  /** What is left of a level is the level without its k oldest orders,
      except that the new head may have lost volume. */
  lemma {:induction false} MatchLevelSuffix(level: seq<Entry>, price: Price, takerId: Id, remaining: Volume)
    ensures var m := MatchLevel(level, price, takerId, remaining);
      var k := |level| - |m.level|;
      && |m.level| <= |level|
      && (m.level != [] ==>
            && m.level[1..] == level[k + 1..]
            && m.level[0].id == level[k].id
            && m.level[0].volume <= level[k].volume)
    decreases |level|, remaining
  {
    if level != [] && remaining != 0 {
      var head := level[0];
      var fill := Min(head.volume, remaining);
      var rest := if fill == head.volume then level[1..]
                  else [head.(volume := head.volume - fill)] + level[1..];
      MatchLevelSuffix(rest, price, takerId, remaining - fill);
      MatchLevelHead(level, price, takerId, remaining, fill, rest, remaining - fill, Trade(takerId, level[0].id, price, fill));
      var r := MatchLevel(rest, price, takerId, remaining - fill);
      if fill == head.volume {
        var k := |level| - |r.level|;
        if r.level != [] {
          assert rest[k - 1] == level[k];
          assert rest[k..] == level[k + 1..];
        }
      } else {
        assert r == LevelMatch(rest, 0, []);
        assert rest[0].id == head.id && rest[1..] == level[1..];
      }
    }
  }

  /** Price-time priority within a level: trade i is against the i-th
      oldest order, at this level's price, for the taker; one trade per
      removed order, plus at most one for the head that stays. */
  lemma {:induction false} MatchLevelTrades(level: seq<Entry>, price: Price, takerId: Id, remaining: Volume)
    ensures var m := MatchLevel(level, price, takerId, remaining);
      var k := |level| - |m.level|;
      && |m.level| <= |level|
      && (|m.trades| == k || (|m.trades| == k + 1 && m.level != []))
      && (forall i :: 0 <= i < |m.trades| ==>
            m.trades[i].order == takerId && m.trades[i].matchedOrder == level[i].id && m.trades[i].price == price)
    decreases |level|, remaining
  {
    if level != [] && remaining != 0 {
      var head := level[0];
      var fill := Min(head.volume, remaining);
      var rest := if fill == head.volume then level[1..]
                  else [head.(volume := head.volume - fill)] + level[1..];
      MatchLevelTrades(rest, price, takerId, remaining - fill);
      var r := MatchLevel(rest, price, takerId, remaining - fill);
      MatchLevelHead(level, price, takerId, remaining, fill, rest, remaining - fill, Trade(takerId, level[0].id, price, fill));
      var m := MatchLevel(level, price, takerId, remaining);
      if fill == head.volume {
        forall i | 0 <= i < |m.trades|
          ensures m.trades[i].order == takerId && m.trades[i].matchedOrder == level[i].id && m.trades[i].price == price
        {
          if i > 0 { assert m.trades[i] == r.trades[i - 1]; assert rest[i - 1] == level[i]; }
        }
      } else {
        assert r == LevelMatch(rest, 0, []);
      }
    }
  }

  /** The k removed orders are filled for their whole volume. */
  lemma {:induction false} MatchLevelFills(level: seq<Entry>, price: Price, takerId: Id, remaining: Volume)
    ensures var m := MatchLevel(level, price, takerId, remaining);
      var k := |level| - |m.level|;
      && |m.level| <= |level| && k <= |m.trades|
      && (forall i :: 0 <= i < k ==> m.trades[i].volume == level[i].volume)
    decreases |level|, remaining
  {
    MatchLevelTrades(level, price, takerId, remaining);
    if level != [] && remaining != 0 {
      var head := level[0];
      var fill := Min(head.volume, remaining);
      var rest := if fill == head.volume then level[1..]
                  else [head.(volume := head.volume - fill)] + level[1..];
      MatchLevelFills(rest, price, takerId, remaining - fill);
      var r := MatchLevel(rest, price, takerId, remaining - fill);
      MatchLevelHead(level, price, takerId, remaining, fill, rest, remaining - fill, Trade(takerId, level[0].id, price, fill));
      var m := MatchLevel(level, price, takerId, remaining);
      if fill == head.volume {
        var k := |level| - |m.level|;
        forall i | 0 <= i < k ensures m.trades[i].volume == level[i].volume {
          if i > 0 { assert m.trades[i] == r.trades[i - 1]; assert rest[i - 1] == level[i]; }
        }
      } else {
        assert r == LevelMatch(rest, 0, []);
      }
    }
  }

  /** A head that stays was either not met, or filled for exactly the
      volume it lost in the one trade beyond the removed orders. */
  lemma {:induction false} MatchLevelPartial(level: seq<Entry>, price: Price, takerId: Id, remaining: Volume)
    ensures var m := MatchLevel(level, price, takerId, remaining);
      var k := |level| - |m.level|;
      && |m.level| <= |level|
      && (|m.trades| == k || (|m.trades| == k + 1 && m.level != []))
      && (m.level != [] && |m.trades| == k ==> m.level[0] == level[k])
      && (|m.trades| == k + 1 ==> m.trades[k].volume + m.level[0].volume == level[k].volume)
    decreases |level|, remaining
  {
    MatchLevelTrades(level, price, takerId, remaining);
    if level != [] && remaining != 0 {
      var head := level[0];
      var fill := Min(head.volume, remaining);
      var rest := if fill == head.volume then level[1..]
                  else [head.(volume := head.volume - fill)] + level[1..];
      MatchLevelPartial(rest, price, takerId, remaining - fill);
      var r := MatchLevel(rest, price, takerId, remaining - fill);
      MatchLevelHead(level, price, takerId, remaining, fill, rest, remaining - fill, Trade(takerId, level[0].id, price, fill));
      var m := MatchLevel(level, price, takerId, remaining);
      if fill == head.volume {
        var k := |level| - |m.level|;
        if |m.trades| == k + 1 {
          assert m.trades[k] == r.trades[k - 1];
          assert rest[k - 1] == level[k];
        }
        if m.level != [] && |m.trades| == k {
          assert rest[k - 1] == level[k];
        }
      } else {
        assert r == LevelMatch(rest, 0, []);
      }
    }
  }

  /** Where the order with that id sits in the level (`|es|` when it is not
      there): the first position holding it. */
  function IdIndex(es: seq<Entry>, id: Id): (k: nat)
    ensures k <= |es|
    ensures k < |es| ==> es[k].id == id
    ensures forall i :: 0 <= i < k ==> es[i].id != id
  {
    if es == [] then 0
    else if es[0].id == id then 0
    else 1 + IdIndex(es[1..], id)
  }

  /** `Limit::delete_order` on the value view: the entry with that id leaves
      the level and the others keep their order. */
  function RemoveId(es: seq<Entry>, id: Id): seq<Entry>
  {
    var k := IdIndex(es, id);
    if k == |es| then es else es[..k] + es[k + 1..]
  }

  /** In a level without repeated ids, removing an id drops exactly that
      id and keeps the rest distinct; an id not there changes nothing. */
  lemma RemoveIdSpec(es: seq<Entry>, id: Id)
    requires DistinctIds(es)
    ensures var r := RemoveId(es, id);
      && DistinctIds(r)
      && (forall x :: x in Ids(r) <==> x in Ids(es) && x != id)
      && (id !in Ids(es) ==> r == es)
  {
    var k := IdIndex(es, id);
    if k < |es| {
      RemovedAt(es, k);
      RemovedIds(es, k);
    } else {
      forall x | x in Ids(es) ensures x != id {
        var i :| 0 <= i < |es| && Ids(es)[i] == x;
      }
    }
  }

  /** Removing position k keeps a level's ids distinct. */
  lemma RemovedAt(es: seq<Entry>, k: nat)
    requires DistinctIds(es) && k < |es|
    ensures DistinctIds(es[..k] + es[k + 1..])
  {
    var r := es[..k] + es[k + 1..];
    forall i, j | 0 <= i < j < |r| ensures r[i].id != r[j].id {
      assert r[i] == if i < k then es[i] else es[i + 1];
      assert r[j] == if j < k then es[j] else es[j + 1];
    }
  }

  /** Removing position k of a level without repeated ids drops exactly the
      id held there. */
  lemma RemovedIds(es: seq<Entry>, k: nat)
    requires DistinctIds(es) && k < |es|
    ensures forall x :: x in Ids(es[..k] + es[k + 1..]) <==> x in Ids(es) && x != es[k].id
  {
    var r := es[..k] + es[k + 1..];
    forall x ensures x in Ids(r) <==> x in Ids(es) && x != es[k].id {
      if x in Ids(r) {
        var i :| 0 <= i < |r| && Ids(r)[i] == x;
        assert r[i] == if i < k then es[i] else es[i + 1];
      }
      if x in Ids(es) && x != es[k].id {
        var i :| 0 <= i < |es| && Ids(es)[i] == x;
        assert x == (if i < k then Ids(r)[i] else Ids(r)[i - 1]);
      }
    }
  }
}
