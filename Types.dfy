/** Integer widths, enumerations and the trade record shared by the order book. */
module Types {

  /** `Price` is a `std::uint32_t`. */
  type Price = p: nat | p <= 0xFFFF_FFFF

  /** `ID` is a `std::uint64_t`. */
  type Id = n: nat | n <= 0xFFFF_FFFF_FFFF_FFFF

  /** `Volume` is a `std::uint64_t`. */
  type Volume = n: nat | n <= 0xFFFF_FFFF_FFFF_FFFF

  /** `BUY` is 0 and `SELL` is 1. */
  datatype OrderType = Buy | Sell

  datatype OrderStatus = Active | Fulfilled | Deleted

  function Opposite(t: OrderType): (u: OrderType)
    ensures u != t
  {
    if t == Buy then Sell else Buy
  }

  /** One execution: the incoming (taker) order, the resting order it met,
      the price of the resting order's level, and the volume exchanged. */
  datatype Trade = Trade(order: Id, matchedOrder: Id, price: Price, volume: Volume)

  /** Sum of the volumes of a list of trades. */
  function TradedVolume(ts: seq<Trade>): nat
  {
    if ts == [] then 0 else ts[0].volume + TradedVolume(ts[1..])
  }

  lemma {:induction false} TradedVolumeAppend(a: seq<Trade>, b: seq<Trade>)
    ensures TradedVolume(a + b) == TradedVolume(a) + TradedVolume(b)
  {
    if a == [] {
      assert a + b == b;
    } else {
      assert (a + b)[1..] == a[1..] + b;
      TradedVolumeAppend(a[1..], b);
    }
  }

  function Min(a: nat, b: nat): (m: nat)
    ensures m <= a && m <= b && (m == a || m == b)
  {
    if a < b then a else b
  }

  /** A prefix of a prefix is a prefix. */
  lemma PrefixTrans<T>(a: seq<T>, b: seq<T>, c: seq<T>)
    requires |a| <= |b| <= |c| && b[..|a|] == a && c[..|b|] == b
    ensures c[..|a|] == a
  {
    assert c[..|a|] == c[..|b|][..|a|];
  }

  lemma AppendAssoc<T>(a: seq<T>, b: seq<T>, c: seq<T>)
    ensures a + (b + c) == (a + b) + c
  {
  }
}
