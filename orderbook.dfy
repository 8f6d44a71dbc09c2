/** The order book as the source keeps it: price levels are objects whose
    queues are updated in place, and each side maps a price to its level. */
module Orderbook {
  import opened Prices
  import opened Orders
  import opened Matching

  /** A price level: a FIFO queue of resting orders at one price. */
  class Limit {
    const price: Price
    var orders: seq<Order>

    constructor (price: Price)
      ensures this.price == price && orders == []
    {
      this.price := price;
      orders := [];
    }

    /** The liquidity resting at this level: zero exactly when every
        resting order is filled. */
    function GetLiquidity(): (l: Size)
      reads this
      ensures l == 0.0 <==> AllFilled(orders)
    {
      LiquidityZeroIffAllFilled(orders);
      Liquidity(orders)
    }

    /** Appends an order at the tail of the queue. */
    method AddOrder(order: Order)
      modifies this
      ensures orders == old(orders) + [order]
    {
      orders := orders + [order];
    }

    /** Fills `incoming` against the queue in arrival order, without a
        report; the incoming order is returned with its new size. */
    method FillOrder(incoming: Order) returns (incoming': Order)
      modifies this
      ensures var d := Drain(old(orders), incoming.size);
              orders == d.orders && incoming' == incoming.(size := d.remaining)
    {
      ghost var orig := orders;
      ghost var acc: Size := 0.0;
      incoming' := incoming;
      var i := 0;
      while i < |orders|
        invariant incoming'.orderType == incoming.orderType
        invariant DrainedSoFar(orig, incoming.size, orders, i, acc, incoming'.size)
      {
        var resting := orders[i];
        ghost var before := (orders, acc, incoming'.size);
        if incoming'.size >= resting.size {
          acc := acc + resting.size;
          incoming' := incoming'.(size := incoming'.size - resting.size);
          orders := orders[i := resting.(size := 0.0)];
        } else {
          acc := acc + incoming'.size;
          orders := orders[i := resting.(size := resting.size - incoming'.size)];
          incoming' := incoming'.(size := 0.0);
        }
        DrainAdvanced(orig, incoming.size, before.0, i, before.1, before.2, orders, acc, incoming'.size);
        i := i + 1;
        if incoming'.IsFilled() {
          break;
        }
      }
      DrainFinish(orig, incoming.size, orders, i, acc, incoming'.size);
    }

    /** Fills `incoming` against the queue in arrival order and returns the
        size taken here; the caller's report gains one line for this price
        exactly when that size is positive. */
    method FillOrderWithTracking(incoming: Order, filledOrders: seq<FilledOrder>)
      returns (filled: Size, incoming': Order, filledOrders': seq<FilledOrder>)
      modifies this
      ensures var d := Drain(old(orders), incoming.size);
              orders == d.orders && filled == d.filled && incoming' == incoming.(size := d.remaining)
      ensures filledOrders' == filledOrders + if filled > 0.0 then [FilledOrder(price, filled)] else []
    {
      ghost var orig := orders;
      filled := 0.0;
      incoming' := incoming;
      var i := 0;
      while i < |orders|
        invariant incoming'.orderType == incoming.orderType
        invariant DrainedSoFar(orig, incoming.size, orders, i, filled, incoming'.size)
      {
        var resting := orders[i];
        ghost var before := (orders, filled, incoming'.size);
        var fillSize := if incoming'.size < resting.size then incoming'.size else resting.size;
        incoming' := incoming'.(size := incoming'.size - fillSize);
        orders := orders[i := resting.(size := resting.size - fillSize)];
        filled := filled + fillSize;
        DrainAdvanced(orig, incoming.size, before.0, i, before.1, before.2, orders, filled, incoming'.size);
        i := i + 1;
        if incoming'.IsFilled() {
          break;
        }
      }
      DrainFinish(orig, incoming.size, orders, i, filled, incoming'.size);
      if filled > 0.0 {
        filledOrders' := filledOrders + [FilledOrder(price, filled)];
      } else {
        filledOrders' := filledOrders;
      }
    }
  }

  /** Every level sits under its own price. */
  ghost predicate Priced(side: map<Price, Limit>) {
    forall p :: p in side ==> side[p].price == p
  }

  /** The queues of a side, as values. */
  ghost function LevelsOf(side: map<Price, Limit>): (levels: Side)
    reads side.Values
    ensures levels.Keys == side.Keys
  {
    map p | p in side :: side[p].orders
  }

  function PricesOf(limits: seq<Limit>): (ps: seq<Price>)
    ensures |ps| == |limits| && forall k :: 0 <= k < |limits| ==> ps[k] == limits[k].price
  {
    if limits == [] then [] else [limits[0].price] + PricesOf(limits[1..])
  }

  /** Lists a set of prices cheapest first. */
  method SortedPrices(keys: set<Price>) returns (sorted: seq<Price>)
    ensures sorted == AscendingOf(keys)
  {
    var rest := keys;
    sorted := [];
    while rest != {}
      invariant StrictlyAscending(sorted)
      invariant Elems(sorted) + rest == keys && Elems(sorted) !! rest
      decreases |rest|
    {
      var p :| p in rest;
      sorted := Insert(sorted, p);
      rest := rest - {p};
    }
    AscendingUnique(sorted, AscendingOf(keys));
  }

  /** The limits of `side` at the prices `ps`, in that order. */
  function LimitsAt(side: map<Price, Limit>, ps: seq<Price>): (limits: seq<Limit>)
    requires forall p :: p in ps ==> p in side
    ensures |limits| == |ps| && forall k :: 0 <= k < |ps| ==> limits[k] == side[ps[k]]
  {
    if ps == [] then [] else [side[ps[0]]] + LimitsAt(side, ps[1..])
  }

  /** On a priced side, the limits at `ps` carry the prices `ps`. */
  lemma LimitsAtPrices(side: map<Price, Limit>, ps: seq<Price>)
    requires Priced(side) && forall p :: p in ps ==> p in side
    ensures PricesOf(LimitsAt(side, ps)) == ps
  {
    var limits := LimitsAt(side, ps);
    assert forall k :: 0 <= k < |ps| ==> PricesOf(limits)[k] == side[ps[k]].price == ps[k];
  }

  /** The levels of a side whose queues, except perhaps the one at
      `price`, are those listed in `before`. */
  lemma LevelsAfter(side: map<Price, Limit>, before: Side, price: Price)
    requires before.Keys == side.Keys
    requires forall p :: p in side && p != price ==> side[p].orders == before[p]
    ensures price in side ==> LevelsOf(side) == before[price := side[price].orders]
    ensures price !in side ==> LevelsOf(side) == before
  {
  }

  /** The levels of a side none of whose queues changed. */
  lemma LevelsKept(side: map<Price, Limit>, before: Side)
    requires before.Keys == side.Keys
    requires forall p :: p in side ==> side[p].orders == before[p]
    ensures LevelsOf(side) == before
  {
  }

  /** Inserting a level under its own price keeps a side priced, and keeps
      it apart from the opposite side when the level is not one of its. */
  lemma PricedInsert(side: map<Price, Limit>, other: map<Price, Limit>, price: Price, limit: Limit)
    requires Priced(side) && limit.price == price
    requires forall p :: p in side && p in other ==> side[p] != other[p]
    requires price in other ==> other[price] != limit
    ensures Priced(side[price := limit])
    ensures forall p :: p in side[price := limit] && p in other ==> side[price := limit][p] != other[p]
  {
  }

  /** The levels of a side that gained `order` at the end of the queue at
      `price` and is otherwise as listed in `before`. */
  lemma LevelsAppended(side: map<Price, Limit>, before: Side, price: Price, order: Order)
    requires price in side && side.Keys == before.Keys + {price}
    requires side[price].orders == (if price in before then before[price] else []) + [order]
    requires forall p :: p in side && p != price ==> side[p].orders == before[p]
    ensures LevelsOf(side) == Append(before, price, order)
  {
  }

  /** The loop of filling a market order: the levels `limits`, taken from
      `side` in priority order, are drained one after the other until the
      incoming order is filled. The walk of the specification describes the
      outcome; the levels of `other`, the side the order rests on, are not
      touched. */
  method FillLevels(limits: seq<Limit>, ghost side: map<Price, Limit>, ghost other: map<Price, Limit>, order: Order)
    returns (filledSize: Size, totalValue: real, filledOrders: seq<FilledOrder>, order': Order)
    requires Priced(side) && Priced(other)
    requires forall p :: p in side && p in other ==> side[p] != other[p]
    requires forall k :: 0 <= k < |limits| ==> limits[k].price in side && side[limits[k].price] == limits[k]
    modifies side.Values
    ensures Walk(PricesOf(limits), old(LevelsOf(side)), order.size)
         == Walked(LevelsOf(side), filledSize, order'.size, totalValue, filledOrders)
    ensures LevelsOf(other) == old(LevelsOf(other))
    ensures order'.orderType == order.orderType
  {
    ghost var ps := PricesOf(limits);
    ghost var side0 := LevelsOf(side);
    ghost var other0 := LevelsOf(other);
    filledSize := 0.0;
    totalValue := 0.0;
    filledOrders := [];
    order' := order;
    var i := 0;
    ghost var cur := side0;
    WalkStart(ps, side0, order.size);
    while i < |limits|
      invariant order'.orderType == order.orderType
      invariant LevelsOf(other) == other0
      invariant LevelsOf(side) == cur
      invariant WalkedSoFar(ps, side0, order.size, i, cur, filledSize, totalValue, filledOrders, order'.size)
    {
      var limit := limits[i];
      assert cur[ps[i]] == limit.orders;
      ghost var before := (cur, filledSize, totalValue, filledOrders, order'.size);
      var limitFilled;
      limitFilled, order', filledOrders := limit.FillOrderWithTracking(order', filledOrders);
      filledSize := filledSize + limitFilled;
      totalValue := totalValue + Notional(limitFilled, limit.price);
      LevelsAfter(side, cur, ps[i]);
      cur := cur[ps[i] := limit.orders];
      LevelsKept(other, other0);
      WalkAdvance(ps, side0, order.size, i, before.0, before.1, before.2, before.3, before.4,
                  cur, filledSize, totalValue, filledOrders, order'.size);
      i := i + 1;
      if order'.IsFilled() {
        break;
      }
    }
    WalkFinish(ps, side0, order.size, i, cur, filledSize, totalValue, filledOrders, order'.size);
  }

  class OrderBook {
    var asks: map<Price, Limit>
    var bids: map<Price, Limit>
    /** The book and the levels it owns. */
    ghost var Repr: set<object>

    /** Each level sits under its own price, belongs to the book, and is not
        shared by the two sides. */
    ghost predicate Valid()
      reads this
    {
      this in Repr && Priced(asks) && Priced(bids) &&
      (forall p :: p in asks ==> asks[p] in Repr) &&
      (forall p :: p in bids ==> bids[p] in Repr) &&
      (forall p :: p in asks && p in bids ==> asks[p] != bids[p])
    }

    /** The book as values. */
    ghost function View(): BookView
      requires Valid()
      reads Repr
    {
      BookView(LevelsOf(asks), LevelsOf(bids))
    }

    constructor ()
      ensures Valid() && View() == EmptyBook && fresh(Repr)
    {
      asks := map[];
      bids := map[];
      Repr := {this};
    }

    /** The ask levels, cheapest first. */
    method FetchAskLimits() returns (limits: seq<Limit>)
      requires Valid()
      ensures PricesOf(limits) == AscendingOf(asks.Keys)
      ensures forall k :: 0 <= k < |limits| ==> limits[k].price in asks && asks[limits[k].price] == limits[k]
    {
      var sorted := SortedPrices(asks.Keys);
      limits := LimitsAt(asks, sorted);
      LimitsAtPrices(asks, sorted);
    }

    /** The bid levels, highest first. */
    method FetchBidLimits() returns (limits: seq<Limit>)
      requires Valid()
      ensures PricesOf(limits) == Reverse(AscendingOf(bids.Keys))
      ensures forall k :: 0 <= k < |limits| ==> limits[k].price in bids && bids[limits[k].price] == limits[k]
    {
      var sorted := SortedPrices(bids.Keys);
      ReverseElems(sorted);
      sorted := Reverse(sorted);
      limits := LimitsAt(bids, sorted);
      LimitsAtPrices(bids, sorted);
    }

    /** Posts a resting order at `price` on its own side, creating the
        level when it is absent. No matching takes place. */
    method AddLimitOrder(price: Price, order: Order)
      requires Valid()
      modifies Repr
      ensures Valid()
      ensures View() == old(View()).Add(price, order)
      ensures fresh(Repr - old(Repr))
    {
      match order.orderType
      case Ask => AddAsk(price, order);
      case Bid => AddBid(price, order);
    }

    /** The ask arm of posting. */
    method AddAsk(price: Price, order: Order)
      requires Valid() && order.orderType == Ask
      modifies Repr
      ensures Valid()
      ensures View() == old(View()).Add(price, order)
      ensures fresh(Repr - old(Repr))
    {
      ghost var levels := LevelsOf(asks);
      ghost var others := LevelsOf(bids);
      var limit;
      if price in asks {
        limit := asks[price];
        assert levels[price] == limit.orders;
      } else {
        limit := new Limit(price);
        PricedInsert(asks, bids, price, limit);
        asks, Repr := asks[price := limit], Repr + {limit};
      }
      limit.AddOrder(order);
      LevelsAppended(asks, levels, price, order);
      LevelsKept(bids, others);
    }

    /** The bid arm of posting. */
    method AddBid(price: Price, order: Order)
      requires Valid() && order.orderType == Bid
      modifies Repr
      ensures Valid()
      ensures View() == old(View()).Add(price, order)
      ensures fresh(Repr - old(Repr))
    {
      ghost var levels := LevelsOf(bids);
      ghost var others := LevelsOf(asks);
      var limit;
      if price in bids {
        limit := bids[price];
        assert levels[price] == limit.orders;
      } else {
        limit := new Limit(price);
        PricedInsert(bids, asks, price, limit);
        bids, Repr := bids[price := limit], Repr + {limit};
      }
      limit.AddOrder(order);
      LevelsAppended(bids, levels, price, order);
      LevelsKept(asks, others);
    }

    /** Fills an incoming order against the opposite side, best price first
        and in arrival order within a level, and reports the fill. The
        incoming order is returned with its remaining size. */
    method FillMarketOrder(order: Order) returns (result: FillResult, order': Order)
      requires Valid()
      modifies Repr
      ensures asks == old(asks) && bids == old(bids) && Repr == old(Repr) && Valid()
      ensures var m := old(View()).Match(order);
              View() == m.book && result == m.report && order' == m.order
    {
      match order.orderType
      case Ask => result, order' := FillAgainstBids(order);
      case Bid => result, order' := FillAgainstAsks(order);
    }

    /** The ask arm of filling: a sell order consumes the bids, highest
        first. */
    method FillAgainstBids(order: Order) returns (result: FillResult, order': Order)
      requires Valid() && order.orderType == Ask
      modifies Repr
      ensures asks == old(asks) && bids == old(bids) && Repr == old(Repr) && Valid()
      ensures var m := old(View()).Match(order);
              View() == m.book && result == m.report && order' == m.order
    {
      var limits := FetchBidLimits();
      var filledSize, totalValue, filledOrders;
      filledSize, totalValue, filledOrders, order' := FillLevels(limits, bids, asks, order);
      var avgFillPrice := if filledSize > 0.0 then totalValue / filledSize else 0.0;
      result := FillResult(filledSize, order'.size, avgFillPrice, filledOrders);
    }

    /** The bid arm of filling: a buy order consumes the asks, cheapest
        first. */
    method FillAgainstAsks(order: Order) returns (result: FillResult, order': Order)
      requires Valid() && order.orderType == Bid
      modifies Repr
      ensures asks == old(asks) && bids == old(bids) && Repr == old(Repr) && Valid()
      ensures var m := old(View()).Match(order);
              View() == m.book && result == m.report && order' == m.order
    {
      ghost var book := View();
      var limits := FetchAskLimits();
      assert PricesOf(limits) == book.AskPriority();
      var filledSize, totalValue, filledOrders;
      filledSize, totalValue, filledOrders, order' := FillLevels(limits, asks, bids, order);
      ghost var w := Walk(PricesOf(limits), book.asks, order.size);
      assert View() == BookView(w.side, book.bids);
      var avgFillPrice := if filledSize > 0.0 then totalValue / filledSize else 0.0;
      result := FillResult(filledSize, order'.size, avgFillPrice, filledOrders);
    }
  }
}
