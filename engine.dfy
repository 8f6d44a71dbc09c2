/** The registry of markets: each trading pair names one order book, and
    resting orders are routed to the book of their pair. */
module Engine {
  import opened Prices
  import opened Orders
  import opened Matching

  datatype Result<T> = Ok(value: T) | Err(error: string)

  /** A market, named by its base and quote assets. Equality is structural,
      so a pair is an exact map key. */
  datatype TradingPair = TradingPair(base: string, quote: string) {

    /** The display name `base/quote`. */
    function ToString(): (s: string)
      ensures |s| == |base| + 1 + |quote|
      ensures s[..|base|] == base && s[|base|] == '/' && s[|base| + 1..] == quote
    {
      base + "/" + quote
    }
  }

  /** The display name determines the pair when the base asset has no '/':
      the first '/' of the name is the separator. */
  lemma ToStringInjective(a: TradingPair, b: TradingPair)
    requires '/' !in a.base && '/' !in b.base
    requires a.ToString() == b.ToString()
    ensures a == b
  {
    var s := a.ToString();
    if |a.base| != |b.base| {
      assert false;
    }
    assert a.base == s[..|a.base|] == b.base;
    assert a.quote == s[|a.base| + 1..] == b.quote;
  }

  /** Without that condition two pairs can share a display name. */
  lemma ToStringAmbiguous()
    ensures TradingPair("A/B", "C") != TradingPair("A", "B/C")
    ensures TradingPair("A/B", "C").ToString() == TradingPair("A", "B/C").ToString()
  {
  }

  /** The error text for an order placed on an unregistered pair: a fixed
      prefix followed by the display name of the pair. */
  function MarketNotFound(pair: TradingPair): (e: string)
    ensures |e| == 18 + |pair.ToString()|
    ensures e[..18] == "Market not found: " && e[18..] == pair.ToString()
  {
    "Market not found: " + pair.ToString()
  }

  /** The error text identifies the pair when the base asset has no '/'. */
  lemma MarketNotFoundInjective(a: TradingPair, b: TradingPair)
    requires '/' !in a.base && '/' !in b.base
    requires MarketNotFound(a) == MarketNotFound(b)
    ensures a == b
  {
    assert a.ToString() == MarketNotFound(a)[18..] == MarketNotFound(b)[18..] == b.ToString();
    ToStringInjective(a, b);
  }

  /** The registry. The source's map owns its books, so no book is shared
      between pairs and each is held here as its value; posting on a book is
      `BookView.Add`, which `OrderBook.AddLimitOrder` implements in place. */
  class MatchingEngine {
    var orderbooks: map<TradingPair, BookView>

    /** An engine starts with no markets. */
    constructor ()
      ensures orderbooks == map[]
    {
      orderbooks := map[];
    }

    /** Registers `pair` with a new, empty book. A pair already registered
        loses its book; every other pair keeps its own. */
    method AddNewMarket(pair: TradingPair)
      modifies this
      ensures orderbooks == old(orderbooks)[pair := EmptyBook]
    {
      orderbooks := orderbooks[pair := EmptyBook];
    }

    /** Posts a resting order on the book of `pair`, or reports that the
        pair is not registered and changes nothing. */
    method PlaceLimitOrder(pair: TradingPair, price: Price, order: Order) returns (r: Result<()>)
      modifies this
      ensures pair !in old(orderbooks) ==>
                r == Err(MarketNotFound(pair)) && orderbooks == old(orderbooks)
      ensures pair in old(orderbooks) ==>
                r == Ok(()) && orderbooks == old(orderbooks)[pair := old(orderbooks)[pair].Add(price, order)]
    {
      if pair in orderbooks {
        orderbooks := orderbooks[pair := orderbooks[pair].Add(price, order)];
        r := Ok(());
      } else {
        r := Err(MarketNotFound(pair));
      }
    }
  }
}
