/** Orders, the fill reports, and the specification of draining one price
    level: the resting orders of a limit are consumed in arrival order, each
    giving the smaller of its own size and what the incoming order still
    wants, until the incoming order is filled. */
module Orders {
  import opened Prices

  /** Bid is buy intent, Ask is sell intent. */
  datatype OrderType = Bid | Ask

  /** Sizes are exact non-negative quantities. */
  type Size = r: real | r >= 0.0

  /** A resting or incoming order: its side and its remaining size. */
  datatype Order = Order(orderType: OrderType, size: Size) {

    /** Filled means nothing remains, exactly. */
    predicate IsFilled() {
      size == 0.0
    }
  }

  /** One line of a fill report: how much was taken at one price level. */
  datatype FilledOrder = FilledOrder(price: Price, size: Size)

  /** The smaller of two sizes. */
  function Min(a: Size, b: Size): Size {
    if a < b then a else b
  }

  /** The remaining sizes of the orders, added up. */
  function Liquidity(os: seq<Order>): Size {
    if os == [] then 0.0 else os[0].size + Liquidity(os[1..])
  }

  ghost predicate AllFilled(os: seq<Order>) {
    forall i :: 0 <= i < |os| ==> os[i].IsFilled()
  }

  /** A level has no liquidity exactly when every order in it is filled. */
  lemma {:induction false} LiquidityZeroIffAllFilled(os: seq<Order>)
    ensures Liquidity(os) == 0.0 <==> AllFilled(os)
  {
    if os != [] {
      LiquidityZeroIffAllFilled(os[1..]);
      assert AllFilled(os) <==> os[0].IsFilled() && AllFilled(os[1..]);
    }
  }

  /** Appending an order adds its size to the liquidity. */
  lemma {:induction false} LiquidityAppend(os: seq<Order>, o: Order)
    ensures Liquidity(os + [o]) == Liquidity(os) + o.size
  {
    if os != [] {
      assert (os + [o])[1..] == os[1..] + [o];
      LiquidityAppend(os[1..], o);
    }
  }

  /** Liquidity splits over a concatenation. */
  lemma {:induction false} LiquidityConcat(a: seq<Order>, b: seq<Order>)
    ensures Liquidity(a + b) == Liquidity(a) + Liquidity(b)
  {
    if a != [] {
      assert (a + b)[1..] == a[1..] + b;
      LiquidityConcat(a[1..], b);
    } else {
      assert a + b == b;
    }
  }

  /** The outcome of draining a level: the resting orders afterwards, the
      size taken from them, and what the incoming order still wants. */
  datatype Drained = Drained(orders: seq<Order>, filled: Size, remaining: Size)

  /** Drains `os` against an incoming order that wants `x`. Each resting
      order in turn gives `Min(x, size)`; the walk stops right after the
      step at which the incoming order reaches zero (so an incoming order of
      zero still visits the first resting order, taking nothing). */
  function Drain(os: seq<Order>, x: Size): Drained
    decreases |os|
  {
    if os == [] then Drained([], 0.0, x)
    else
      var f := Min(x, os[0].size);
      var o := os[0].(size := os[0].size - f);
      if x - f == 0.0 then Drained([o] + os[1..], f, 0.0)
      else
        var d := Drain(os[1..], x - f);
        Drained([o] + d.orders, f + d.filled, d.remaining)
  }

  /** Draining keeps the queue: same length, same sides, and no resting
      order grows. Zero-size orders stay where they are. */
  lemma {:induction false} DrainKeepsQueue(os: seq<Order>, x: Size)
    ensures |Drain(os, x).orders| == |os|
    ensures forall i :: 0 <= i < |os| ==>
      Drain(os, x).orders[i].orderType == os[i].orderType &&
      Drain(os, x).orders[i].size <= os[i].size
  {
    if os != [] {
      var f := Min(x, os[0].size);
      if x - f != 0.0 {
        DrainKeepsQueue(os[1..], x - f);
        var d := Drain(os[1..], x - f);
        assert Drain(os, x).orders == [os[0].(size := os[0].size - f)] + d.orders;
      }
    }
  }

  /** Size is conserved: what the incoming order loses is exactly what the
      resting orders lose. */
  lemma {:induction false} DrainConserves(os: seq<Order>, x: Size)
    ensures Drain(os, x).filled + Drain(os, x).remaining == x
    ensures Liquidity(Drain(os, x).orders) + Drain(os, x).filled == Liquidity(os)
  {
    if os != [] {
      var f := Min(x, os[0].size);
      var o := os[0].(size := os[0].size - f);
      if x - f == 0.0 {
        assert ([o] + os[1..])[1..] == os[1..];
      } else {
        DrainConserves(os[1..], x - f);
        var d := Drain(os[1..], x - f);
        assert ([o] + d.orders)[1..] == d.orders;
      }
    }
  }

  /** The level gives `Min(x, Liquidity(os))`: either the incoming order is
      filled, or the level is emptied and the rest of the order remains. */
  lemma {:induction false} DrainAmount(os: seq<Order>, x: Size)
    ensures Drain(os, x).filled == Min(x, Liquidity(os))
    ensures Drain(os, x).remaining == 0.0 || Liquidity(Drain(os, x).orders) == 0.0
    ensures x > Liquidity(os) ==> Drain(os, x).remaining > 0.0 && AllFilled(Drain(os, x).orders)
  {
    DrainConserves(os, x);
    var d := Drain(os, x);
    if os != [] {
      var f := Min(x, os[0].size);
      var o := os[0].(size := os[0].size - f);
      if x - f != 0.0 {
        DrainAmount(os[1..], x - f);
        assert o.size == 0.0;
        assert ([o] + Drain(os[1..], x - f).orders)[1..] == Drain(os[1..], x - f).orders;
      }
    }
    LiquidityZeroIffAllFilled(d.orders);
  }

  /** Time priority: a resting order is touched only when every order ahead
      of it in the queue has been emptied. In particular, once the incoming
      order is filled every later resting order keeps its size. */
  lemma {:induction false} DrainIsFifo(os: seq<Order>, x: Size, i: nat, j: nat)
    requires i < j < |os|
    ensures |Drain(os, x).orders| == |os|
    ensures Drain(os, x).orders[j] != os[j] ==> Drain(os, x).orders[i].IsFilled()
  {
    DrainKeepsQueue(os, x);
    var f := Min(x, os[0].size);
    var o := os[0].(size := os[0].size - f);
    if x - f == 0.0 {
      assert Drain(os, x).orders[j] == os[j];
    } else {
      var d := Drain(os[1..], x - f);
      assert Drain(os, x).orders == [o] + d.orders;
      if i > 0 {
        DrainIsFifo(os[1..], x - f, i - 1, j - 1);
      }
    }
  }

  /** The walk stops once the incoming order is filled: a resting order
      behind orders holding at least `x` in total keeps its size. */
  lemma {:induction false} DrainStopsWhenFilled(os: seq<Order>, x: Size, j: nat)
    requires j < |os|
    requires x <= Liquidity(os[..j])
    ensures |Drain(os, x).orders| == |os|
    ensures Drain(os, x).orders[j] == os[j]
  {
    DrainKeepsQueue(os, x);
    var f := Min(x, os[0].size);
    var o := os[0].(size := os[0].size - f);
    if x - f != 0.0 {
      assert os[..j][1..] == os[1..][..j - 1];
      var d := Drain(os[1..], x - f);
      assert Drain(os, x).orders == [o] + d.orders;
      DrainStopsWhenFilled(os[1..], x - f, j - 1);
    }
  }

  /** An incoming order of zero takes nothing and changes nothing. */
  lemma DrainZero(os: seq<Order>)
    ensures Drain(os, 0.0) == Drained(os, 0.0, 0.0)
  {
    if os != [] {
      assert os == [os[0]] + os[1..];
    }
  }

  /** One step of draining: the first resting order gives `Min(x, size)`,
      then the rest of the queue is drained against what remains. */
  lemma DrainStep(os: seq<Order>, x: Size)
    requires os != []
    ensures var f := Min(x, os[0].size);
            var d := Drain(os[1..], x - f);
            Drain(os, x) == Drained([os[0].(size := os[0].size - f)] + d.orders, f + d.filled, d.remaining)
  {
    var f := Min(x, os[0].size);
    if x - f == 0.0 {
      DrainZero(os[1..]);
    }
  }

  /** The loop state of draining a queue in place: the first `i` resting
      orders of `cur` are done, those from `i` on are untouched, `acc` was
      filled so far and the incoming order still wants `rem`. */
  ghost predicate DrainedSoFar(orig: seq<Order>, x: Size, cur: seq<Order>, i: nat, acc: Size, rem: Size) {
    i <= |cur| == |orig| && cur[i..] == orig[i..] &&
    var d := Drain(cur[i..], rem);
    Drain(orig, x) == Drained(cur[..i] + d.orders, acc + d.filled, d.remaining)
  }

  /** Replacing the order at `i` splits the queue around it. */
  lemma UpdateSplit(cur: seq<Order>, i: nat, o: Order)
    requires i < |cur|
    ensures cur[i := o][..i + 1] == cur[..i] + [o]
    ensures cur[i := o][i + 1..] == cur[i + 1..]
  {
  }

  /** One step of draining the queue from position `i` on. */
  lemma DrainStepAt(os: seq<Order>, i: nat, x: Size)
    requires i < |os|
    ensures var f := Min(x, os[i].size);
            var d := Drain(os[i + 1..], x - f);
            Drain(os[i..], x) == Drained([os[i].(size := os[i].size - f)] + d.orders, f + d.filled, d.remaining)
  {
    assert os[i..][0] == os[i] && os[i..][1..] == os[i + 1..];
    DrainStep(os[i..], x);
  }

  /** Regrouping the outcome of a drain split at one resting order. */
  lemma Regroup(whole: Drained, pre: seq<Order>, here: Drained, o: Order, rest: Drained, acc: Size, f: Size)
    requires whole == Drained(pre + here.orders, acc + here.filled, here.remaining)
    requires here == Drained([o] + rest.orders, f + rest.filled, rest.remaining)
    ensures whole == Drained((pre + [o]) + rest.orders, (acc + f) + rest.filled, rest.remaining)
  {
    assert pre + ([o] + rest.orders) == (pre + [o]) + rest.orders;
  }

  /** One more resting order drained: the first resting order not yet
      done gives `Min(rem, size)`. */
  lemma DrainAdvance(orig: seq<Order>, x: Size, cur: seq<Order>, i: nat, acc: Size, rem: Size)
    requires DrainedSoFar(orig, x, cur, i, acc, rem) && i < |cur|
    ensures var f := Min(rem, cur[i].size);
            DrainedSoFar(orig, x, cur[i := cur[i].(size := cur[i].size - f)], i + 1, acc + f, rem - f)
  {
    var f := Min(rem, cur[i].size);
    var o := cur[i].(size := cur[i].size - f);
    UpdateSplit(cur, i, o);
    DrainStepAt(cur, i, rem);
    Regroup(Drain(orig, x), cur[..i], Drain(cur[i..], rem), o, Drain(cur[i + 1..], rem - f), acc, f);
  }

  /** The same step, with the loop state afterwards named by the caller. */
  lemma DrainAdvanced(orig: seq<Order>, x: Size, cur: seq<Order>, i: nat, acc: Size, rem: Size,
                      cur': seq<Order>, acc': Size, rem': Size)
    requires DrainedSoFar(orig, x, cur, i, acc, rem) && i < |cur|
    requires var f := Min(rem, cur[i].size);
             cur' == cur[i := cur[i].(size := cur[i].size - f)] && acc' == acc + f && rem' == rem - f
    ensures DrainedSoFar(orig, x, cur', i + 1, acc', rem')
  {
    DrainAdvance(orig, x, cur, i, acc, rem);
  }

  lemma DrainFinish(orig: seq<Order>, x: Size, cur: seq<Order>, i: nat, acc: Size, rem: Size)
    requires DrainedSoFar(orig, x, cur, i, acc, rem)
    requires i == |cur| || rem == 0.0
    ensures Drain(orig, x) == Drained(cur, acc, rem)
  {
    DrainZero(cur[i..]);
    assert cur[..i] + cur[i..] == cur;
  }

  /** An incoming order of 50 against two resting orders of 20 leaves 10
      unfilled and empties both resting orders. */
  lemma SemiFillExample()
    ensures Drain([Order(Ask, 20.0), Order(Ask, 20.0)], 50.0)
         == Drained([Order(Ask, 0.0), Order(Ask, 0.0)], 40.0, 10.0)
  {
  }

  /** Two incoming orders of 40 against resting orders of 38 and 62: the first
      empties the 38 and takes 2 from the 62, the second takes 40 more; both
      incoming orders are filled and 20 rests in the second order. */
  lemma MultiFillExample()
    ensures Drain([Order(Ask, 38.0), Order(Ask, 62.0)], 40.0)
         == Drained([Order(Ask, 0.0), Order(Ask, 60.0)], 40.0, 0.0)
    ensures Drain([Order(Ask, 0.0), Order(Ask, 60.0)], 40.0)
         == Drained([Order(Ask, 0.0), Order(Ask, 20.0)], 40.0, 0.0)
  {
  }

  /** Two orders of 20 give a liquidity of 40. */
  lemma TotalVolumeExample()
    ensures Liquidity([Order(Ask, 20.0), Order(Ask, 20.0)]) == 40.0
  {
  }
}
